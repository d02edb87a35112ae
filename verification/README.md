# VirusTotal agent: scan-result interpretation

A Dafny model of how the VirusTotal agent turns the per-engine results of a
VirusTotal file report into a verdict and a report text. The model covers four parts:

- **Extraction** (`AgentVirusTotal`, from `agent/virustotal.py`). `get_scans` returns
  `response["results"]["scans"]` when `results` is a dict whose `response_code == 1`,
  and None when `results` is missing or its code is not 1. It raises when `results` is
  not a dict, or when the code is 1 but `scans` is missing.
- **Normaliser** (`AgentProcessScans.ExcludeUnreliableScans`). It drops the engines
  `K7GW` and `TrendMicro-HouseCall`, which are known for false positives.
- **Verdicts**. There are two variants of the same loop over the engine records:
  - the agent's strict `is_scan_malicious`, which tests `detected is True`;
  - the `src/` variant's `get_risk_rating`, which tests truthiness and answers `HIGH`/`SECURE`.
  
  Both loops are modelled once, as `Detection.FirstHit`, parameterised by the hit test.
- **Technical details**. This is the text built around the markdown table: an optional
  target header and an optional link sentence (agent), or the bare table (`src/`).
  `ReportText` holds the composition, plus a reader, `ParseReport`, that recovers the
  target and the link from the text. Its lemmas show that the reader inverts the
  composition, and that every text it accepts is a composition.

Python values are modelled as the JSON-shaped values of a decoded response
(`PyValues.Value`: None, bool, int, float, str, list, dict). A dict is an
ordered association list, because Python dicts iterate in insertion order.
Exceptions are modelled as `Result` values, not as preconditions:
- `KeyError` for a missing key;
- `TypeError` for indexing a non-dict with a string;
- `AttributeError` for calling `.get` on a non-dict.

So a record without `detected` raises `KeyError('detected')` exactly when the loop
reaches it. That is, when every earlier record has a readable `detected` that is not
a hit. An earlier record whose `detected` cannot be read (a record that is not a dict,
say) stops the loop first with its own exception.

The markdown helpers (`prepare_data_for_markdown_formatting`, `table_markdown`)
are not part of this model. Each variant imports its own markdown module: the agent
uses `from agent import markdown` (agent/process_scans.py:6) and the `src/` variant
uses `from . import markdown` (src/process_scans.py:4). In both, the helpers enter
the technical-details functions as function-typed parameters `prepare: Dict -> R`
and `tableMarkdown: R -> string`, and nothing is assumed about them. Where the two
variants are related (`SrcProcessScans.GetTechnicalDetails`), the relation is stated
for the same pair of helpers passed to both; it says nothing about whether the two
modules build the same table.

Behaviour of the code worth knowing:
- The target header and the link sentence are added when the argument `is not None`
  (agent/process_scans.py:29, 32), so an empty string still produces them.
- The verdict is not independent of order in every case. An unreadable record after
  the first hit is never inspected, but before it, it raises. The order-independence
  lemma therefore assumes every record has `detected`.
- Both variants raise on a missing `detected`. Neither treats it as "not detected".

## Model

| member | source | states |
|---|---|---|
| PyValues.Pop | agent/process_scans.py:64 | `scans.pop(key, None)` leaves exactly the entries under other keys, in order (equals removing the key set `{key}`) |
| Detection.FirstHit | agent/process_scans.py:47-51 | the loop returns False exactly when every record was read without a hit; otherwise it returns the outcome (True, or the raised exception) of a record that is reached and stops the loop |
| Detection.FirstHitStopsAtFirst | agent/process_scans.py:47-49 | any reached record that stops the loop (hit or unreadable `detected`) determines the result, so records after it are never inspected |
| Detection.FirstHitAppend | src/process_scans.py:12-15 | scanning `a + b` gives the result of `a` unless `a` ended without hit or exception, in which case it gives the result of `b` |
| Detection.FirstHitByValues | src/process_scans.py:12-15 | when every record has `detected`, the loop returns whether some `detected` value is a hit, and never raises |
| Detection.FirstHitAgree | src/process_scans.py:12-15 | two hit tests that agree on every readable `detected` value give identical results, exceptions included |
| Detection.FirstHitWeaken | src/process_scans.py:13 | if every hit of one test is a hit of another, a True result under the first is a True result under the second |
| Detection.FirstHitSetItem | src/process_scans.py:12-14 | after `scans[key] = record` with a hit in `record`, a loop that did not raise before now returns True |
| AgentProcessScans.PopEach | agent/process_scans.py:63-64 | popping each listed key in turn removes exactly the entries whose key is in the list, keeping the others in order |
| AgentProcessScans.ExcludeUnreliableScans | agent/process_scans.py:54-66 | the result keeps exactly the entries whose engine is neither `K7GW` nor `TrendMicro-HouseCall`, with values and order unchanged; its key set is the input's minus those two; no key is added; distinct keys stay distinct |
| AgentProcessScans.ExcludeIsIdempotent | agent/process_scans.py:63-66 | excluding twice equals excluding once |
| AgentProcessScans.ExcludeWithoutExcludedEngines | agent/process_scans.py:63-64 | with neither excluded engine present, the scans come back unchanged |
| AgentProcessScans.IsScanMalicious | agent/process_scans.py:39-51 | True iff a record whose `detected` is exactly the boolean True is reached before any unreadable record; False iff every record is readable and none is True (so False for no records); raises iff an unreadable record is reached first; truthy non-True values never count |
| AgentProcessScans.MaliciousRaisesAtUnreadableRecord | agent/process_scans.py:47-49 | a record lacking `detected` that the loop reaches raises exactly its KeyError |
| AgentProcessScans.MaliciousShortCircuits | agent/process_scans.py:47-49 | once a True record is found, any records appended afterwards, even ones lacking `detected`, leave the verdict True |
| AgentProcessScans.GetTechnicalDetails | agent/process_scans.py:13-36 | the text starts with the target header followed by the table when a target is given, and with the table otherwise; it ends with the table followed by the link sentence when a link is given, and with the table otherwise |
| AgentProcessScans.ParseInvertsTechnicalDetails | agent/process_scans.py:28-36 | round trip: given the table text, the target and the link are read back from the technical details |
| AgentProcessScans.ParsedPartsRebuildText | agent/process_scans.py:28-36 | every text the reader accepts is exactly the technical details built from what it reads, so the composition is the only shape |
| AgentProcessScans.HeaderPresentIffTarget | agent/process_scans.py:28-31 | the text opens with "Analysis of the target `" iff a target is given |
| AgentProcessScans.LinkPresentIffLink | agent/process_scans.py:32-35 | the text ends with the link sentence's closing ")." iff a link is given |
| SrcProcessScans.GetRiskRating | src/process_scans.py:7-15 | HIGH iff a record with a truthy `detected` is reached before any unreadable record; SECURE iff every record is readable and none is truthy (so SECURE for no records); raises iff an unreadable record is reached first |
| SrcProcessScans.RiskRatingRaisesAtUnreadableRecord | src/process_scans.py:12-14 | a record whose `detected` cannot be read (missing key, or a record that is not a dict) raises exactly its own exception when the loop reaches it, that is, when every earlier record has a readable `detected` that is not truthy |
| SrcProcessScans.RiskRatingDependsOnlyOnDetectedValues | src/process_scans.py:12-15 | when every record has `detected`, the rating does not raise and depends only on the multiset of `detected` values, not on engine names or order |
| SrcProcessScans.RiskRatingHighAfterTruthyRecord | src/process_scans.py:13-14 | monotonicity: `scans[engine] = record` with a truthy `detected` makes a non-raising rating HIGH |
| SrcProcessScans.RiskRatingHighSurvivesNewEngine | src/process_scans.py:12-14 | a HIGH rating stays HIGH whatever record is added under a new engine |
| SrcProcessScans.GetTechnicalDetails | src/process_scans.py:17-27 | given the same markdown helpers, the table-only text equals the agent's technical details with neither target nor link |
| SrcProcessScans.TableOnlyDetailsHaveNoHeaderOrLink | src/process_scans.py:25-27 | when the table does not itself open with "Analysis of the target `", the table-only text reads back as having no target header and no link sentence |
| AgentVirusTotal.GetScans | agent/virustotal.py:46-58 | returns the unchanged `scans` entry when `results` is a dict whose `response_code` equals 1 (int 1, True or 1.0); None when `results` is missing, or when its code is missing or differs from 1; AttributeError when `results` is not a dict; KeyError when the code is 1 but `scans` is missing |
| AgentVirusTotal.GetScansOfReport | agent/virustotal.py:55-58 | round trip: the scans placed in a report come back unchanged iff the report's code equals 1, and None comes back otherwise |
| VariantComparison.MaliciousImpliesHighRisk | src/process_scans.py:12-15 | whatever the strict verdict calls malicious, the lenient rating calls HIGH |
| VariantComparison.VerdictsAgreeOnBooleanFlags | src/process_scans.py:12-15 | when every readable `detected` is a boolean, the two verdicts agree, including the exception raised |
| VariantComparison.TruthyFlagSplitsVerdicts | src/process_scans.py:13 | `{"EngineA": {"detected": 1}}` is HIGH risk but not malicious |
| VariantComparison.ExclusionDropsUnreliableDetection | agent/process_scans.py:63-66 | a detection by `K7GW` alone makes the raw scans malicious, and the excluded scans are not malicious |

## Left out

- `scan_file_from_message` and `scan_url_from_message` (agent/virustotal.py:18-43): MD5 hashing and network calls through the VirusTotal client library. The decoded response is a parameter of `GetScans`.
- agent/virus_total_agent.py: the agent lifecycle, logging, message handling and vulnerability reporting. Its calls (`get_technical_details(scans)` with one argument, `get_risk_rating` on the agent module) do not match the helpers it imports.
- The markdown module: it is not part of this model. Its two functions are parameters, so row counts, the Malicious/Safe labels and empty-table output are not stated.
- Exceptions raised inside the markdown helpers: the parameters are total functions, so a failure in `prepare_data_for_markdown_formatting` (for instance on a record without `detected`) is not modelled.
- In-place mutation: `exclude_unreliable_scans` mutates and returns the same dict. The model returns a new association list and does not model aliasing. The value returned by `pop` is unused by the source and not modelled.
- Python values outside JSON: objects with their own `__getitem__`, `__bool__` or `__eq__`, and non-string dict keys. Floats are exact reals, without NaN or infinities.
- AgentVirusTotal.GetScans: a `scans` entry that is JSON null is returned by the source as Python None, which cannot be told apart from "no report". The model keeps it as `Some(NoneValue)`, distinct from `None`.
- AgentProcessScans.HeaderPresentIffTarget: the "iff" is stated only when the table text does not itself open with "Analysis of the target `", because the table comes from the unmodelled markdown helper.
- AgentProcessScans.LinkPresentIffLink: the "iff" is stated only when the table text does not itself end with ")." for the same reason.
- AgentProcessScans.ParseInvertsTechnicalDetails: a target containing a backtick is excluded, because the header is then ambiguous. Without a target, the table must not open like a header.
- SrcProcessScans.TableOnlyDetailsHaveNoHeaderOrLink: stated only when the table text does not itself open with "Analysis of the target `"; such a table reads back as naming a target.
- SrcProcessScans.GetTechnicalDetails: the equality with the agent's text holds for equal helpers; the two variants' markdown modules are separate and not modelled, so whether they build the same table is not stated.
- SrcProcessScans.RiskRatingDependsOnlyOnDetectedValues: assumes every record has `detected`. Otherwise which exception is raised, if any, depends on record order.
