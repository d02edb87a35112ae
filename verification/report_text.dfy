/** The technical-details text around the markdown table: an optional header
    naming the scanned target, the table, and an optional sentence linking
    the full report; and a reader that recovers target and link from such a
    text when the table text is known. */
module ReportText {
  import opened PyValues

  const HeaderOpen: string := "Analysis of the target `"
  const HeaderClose: string := "`:\n"
  const LinkOpen: string := "\nFor more details, visit the [scan report]("
  const LinkClose: string := ")."

  /** The line naming the target, or nothing when there is no target. */
  function TargetHeader(target: Option<string>): string
  {
    match target
    case None => ""
    case Some(t) => HeaderOpen + t + HeaderClose
  }

  /** The sentence linking the full report, or nothing when there is no link. */
  function LinkSentence(scansLink: Option<string>): string
  {
    match scansLink
    case None => ""
    case Some(l) => LinkOpen + l + LinkClose
  }

  /** Header, table and link sentence, in that order. */
  function Compose(target: Option<string>, table: string, scansLink: Option<string>): string
  {
    TargetHeader(target) + table + LinkSentence(scansLink)
  }

  predicate EndsWith(s: string, suffix: string)
  {
    |suffix| <= |s| && s[|s| - |suffix|..] == suffix
  }

  /** The position of the first `c` in `s`. */
  function IndexOf(s: string, c: char): (r: Option<nat>)
    ensures r.None? <==> c !in s
    ensures r.Some? ==> r.value < |s| && s[r.value] == c && c !in s[..r.value]
  {
    if |s| == 0 then None
    else if s[0] == c then Some(0)
    else
      match IndexOf(s[1..], c)
      case None => None
      case Some(k) =>
        assert s[..k + 1] == [s[0]] + s[1..][..k];
        Some(k + 1)
  }

  /** The two optional arguments recovered from a technical-details text. */
  datatype ReportParts = ReportParts(target: Option<string>, scansLink: Option<string>)

  /** Reads the optional header off `text`: the target runs from the header's
      opening to the first backtick.  Returns the target and what follows. */
  function SplitHeader(text: string): Option<(Option<string>, string)>
  {
    if HeaderOpen <= text then
      var body := text[|HeaderOpen|..];
      match IndexOf(body, '`')
      case None => None
      case Some(k) =>
        if HeaderClose <= body[k..] then Some((Some(body[..k]), body[k..][|HeaderClose|..])) else None
    else Some((None, text))
  }

  /** Reads the optional link sentence that makes up all of `tail`. */
  function SplitLink(tail: string): Option<Option<string>>
  {
    if tail == [] then Some(None)
    else if |LinkOpen| + |LinkClose| <= |tail| && LinkOpen <= tail && EndsWith(tail, LinkClose)
    then Some(Some(tail[|LinkOpen|..|tail| - |LinkClose|]))
    else None
  }

  /** Recovers the target and the link from a technical-details text whose
      table text is known. */
  function ParseReport(text: string, table: string): Option<ReportParts>
  {
    match SplitHeader(text)
    case None => None
    case Some((target, rest)) =>
      if table <= rest then
        match SplitLink(rest[|table|..])
        case None => None
        case Some(link) => Some(ReportParts(target, link))
      else None
  }

  // Sequence facts about splitting a concatenation back into its parts,
  // used by the reader's proofs below.

  lemma Concat2(a: string, b: string)
    ensures a <= a + b
    ensures (a + b)[|a|..] == b
    ensures EndsWith(a + b, b)
  {
    assert (a + b)[..|a|] == a;
  }

  lemma Concat3(a: string, b: string, c: string)
    ensures a + b + c == a + (b + c)
    ensures (a + b + c)[..|a|] == a
    ensures (a + b + c)[|a|..|a| + |b|] == b
    ensures (a + b + c)[|a| + |b|..] == c
  {
  }

  lemma Concat4(a: string, b: string, c: string, d: string)
    ensures a + b + c + d == a + (b + (c + d))
  {
  }

  lemma PrefixSplit(s: string, p: string)
    requires p <= s
    ensures s == p + s[|p|..]
  {
  }

  lemma ThreeWaySplit(s: string, i: nat, j: nat)
    requires i <= j <= |s|
    ensures s == s[..i] + s[i..j] + s[j..]
  {
  }

  lemma IndexOfAfter(t: string, u: string, c: char)
    requires c !in t && 0 < |u| && u[0] == c
    ensures IndexOf(t + u, c) == Some(|t|)
  {
    var s := t + u;
    var k := IndexOf(s, c).value;
    assert s[|t|] == c;
    assert forall j :: 0 <= j < k ==> s[..k][j] == s[j];
    assert forall j :: 0 <= j < |t| ==> s[j] == t[j];
  }

  lemma SplitAtIndex(s: string, k: nat)
    requires k <= |s|
    ensures s == s[..k] + s[k..]
  {
  }

  // The reader against the composition.

  lemma SplitHeaderOfTarget(t: string, rest: string)
    requires '`' !in t
    ensures SplitHeader(HeaderOpen + t + HeaderClose + rest) == Some((Some(t), rest))
  {
    var text := HeaderOpen + t + HeaderClose + rest;
    var body := t + (HeaderClose + rest);
    Concat4(HeaderOpen, t, HeaderClose, rest);
    Concat2(HeaderOpen, body);
    assert text[|HeaderOpen|..] == body;
    assert (HeaderClose + rest)[0] == '`';
    IndexOfAfter(t, HeaderClose + rest, '`');
    Concat2(t, HeaderClose + rest);
    Concat2(HeaderClose, rest);
    assert body[..|t|] == t;
  }

  lemma SplitHeaderSound(text: string)
    requires SplitHeader(text).Some?
    ensures text == TargetHeader(SplitHeader(text).value.0) + SplitHeader(text).value.1
  {
    if HeaderOpen <= text {
      var body := text[|HeaderOpen|..];
      PrefixSplit(text, HeaderOpen);
      var k := IndexOf(body, '`').value;
      var tail := body[k..];
      PrefixSplit(tail, HeaderClose);
      var rest := tail[|HeaderClose|..];
      SplitAtIndex(body, k);
      assert SplitHeader(text) == Some((Some(body[..k]), rest));
      Concat4(HeaderOpen, body[..k], HeaderClose, rest);
    } else {
      assert text == "" + text;
    }
  }

  lemma SplitLinkOfSentence(scansLink: Option<string>)
    ensures SplitLink(LinkSentence(scansLink)) == Some(scansLink)
  {
    if scansLink.Some? {
      var l := scansLink.value;
      Concat3(LinkOpen, l, LinkClose);
      Concat2(LinkOpen + l, LinkClose);
    }
  }

  lemma SplitLinkSound(tail: string)
    requires SplitLink(tail).Some?
    ensures tail == LinkSentence(SplitLink(tail).value)
  {
    if tail != [] {
      ThreeWaySplit(tail, |LinkOpen|, |tail| - |LinkClose|);
    }
  }

  /** A table that does not itself open like the header cannot be made to by
      appending a link sentence, which starts with a newline. */
  lemma NoHeaderBeforeLink(table: string, scansLink: Option<string>)
    requires !(HeaderOpen <= table)
    ensures !(HeaderOpen <= table + LinkSentence(scansLink))
  {
    var sentence := LinkSentence(scansLink);
    var text := table + sentence;
    if |HeaderOpen| <= |table| {
      assert text[..|HeaderOpen|] == table[..|HeaderOpen|];
    } else if scansLink.Some? {
      assert sentence[0] == LinkOpen[0] == '\n';
      assert text[|table|] == '\n';
      assert '\n' !in HeaderOpen;
    }
  }

  lemma ParseAfterHeader(text: string, target: Option<string>, table: string, scansLink: Option<string>)
    requires SplitHeader(text) == Some((target, table + LinkSentence(scansLink)))
    ensures ParseReport(text, table) == Some(ReportParts(target, scansLink))
  {
    SplitLinkOfSentence(scansLink);
    Concat2(table, LinkSentence(scansLink));
  }

  /** The composed text starts with the header (if any) and the table. */
  lemma ComposeStarts(target: Option<string>, table: string, scansLink: Option<string>)
    ensures target.None? ==> table <= Compose(target, table, scansLink)
    ensures target.Some? ==> HeaderOpen + target.value + HeaderClose + table <= Compose(target, table, scansLink)
  {
    var header := TargetHeader(target);
    Concat2(header + table, LinkSentence(scansLink));
    if target.None? {
      assert header + table == table;
    }
  }

  /** The composed text ends with the table and the link sentence (if any). */
  lemma ComposeEnds(target: Option<string>, table: string, scansLink: Option<string>)
    ensures scansLink.None? ==> EndsWith(Compose(target, table, scansLink), table)
    ensures scansLink.Some? ==> EndsWith(Compose(target, table, scansLink), table + LinkOpen + scansLink.value + LinkClose)
  {
    var header := TargetHeader(target);
    var sentence := LinkSentence(scansLink);
    Concat3(header, table, sentence);
    Concat2(header, table + sentence);
    if scansLink.None? {
      assert table + sentence == table;
    } else {
      var l := scansLink.value;
      Concat3(table, LinkOpen, l);
      Concat3(table, LinkOpen + l, LinkClose);
    }
  }

  lemma ComposeWithTarget(t: string, table: string, scansLink: Option<string>)
    ensures Compose(Some(t), table, scansLink) == HeaderOpen + t + HeaderClose + (table + LinkSentence(scansLink))
  {
    var header := HeaderOpen + t + HeaderClose;
    assert Compose(Some(t), table, scansLink) == header + table + LinkSentence(scansLink);
    Concat3(header, table, LinkSentence(scansLink));
  }

  lemma ParseComposeWithTarget(t: string, table: string, scansLink: Option<string>)
    requires '`' !in t
    ensures ParseReport(Compose(Some(t), table, scansLink), table) == Some(ReportParts(Some(t), scansLink))
  {
    var tail := table + LinkSentence(scansLink);
    ComposeWithTarget(t, table, scansLink);
    SplitHeaderOfTarget(t, tail);
    ParseAfterHeader(HeaderOpen + t + HeaderClose + tail, Some(t), table, scansLink);
  }

  lemma ParseComposeNoTarget(table: string, scansLink: Option<string>)
    requires !(HeaderOpen <= table)
    ensures ParseReport(Compose(None, table, scansLink), table) == Some(ReportParts(None, scansLink))
  {
    var tail := table + LinkSentence(scansLink);
    assert Compose(None, table, scansLink) == tail;
    NoHeaderBeforeLink(table, scansLink);
    ParseAfterHeader(tail, None, table, scansLink);
  }

  /** Round trip: target and link are read back from the composed text. */
  lemma ParseCompose(target: Option<string>, table: string, scansLink: Option<string>)
    requires target.Some? ==> '`' !in target.value
    requires target.None? ==> !(HeaderOpen <= table)
    ensures ParseReport(Compose(target, table, scansLink), table) == Some(ReportParts(target, scansLink))
  {
    if target.Some? {
      ParseComposeWithTarget(target.value, table, scansLink);
    } else {
      ParseComposeNoTarget(table, scansLink);
    }
  }

  /** Whatever the reader accepts is the composition of what it returns. */
  lemma ParseSound(text: string, table: string)
    requires ParseReport(text, table).Some?
    ensures Compose(ParseReport(text, table).value.target, table, ParseReport(text, table).value.scansLink) == text
  {
    var parts := ParseReport(text, table).value;
    SplitHeaderSound(text);
    var rest := SplitHeader(text).value.1;
    PrefixSplit(rest, table);
    SplitLinkSound(rest[|table|..]);
    Concat3(TargetHeader(parts.target), table, LinkSentence(parts.scansLink));
  }

  /** The text opens with the header exactly when a target is given, unless
      the table itself opens like the header. */
  lemma HeaderIffTarget(target: Option<string>, table: string, scansLink: Option<string>)
    requires !(HeaderOpen <= table)
    ensures HeaderOpen <= Compose(target, table, scansLink) <==> target.Some?
  {
    if target.None? {
      assert Compose(target, table, scansLink) == table + LinkSentence(scansLink);
      NoHeaderBeforeLink(table, scansLink);
    } else {
      var tail := table + LinkSentence(scansLink);
      ComposeWithTarget(target.value, table, scansLink);
      Concat4(HeaderOpen, target.value, HeaderClose, tail);
      Concat2(HeaderOpen, target.value + (HeaderClose + tail));
    }
  }

  /** The text closes with ")." exactly when a link is given, unless the table
      itself ends that way. */
  lemma LinkIffLink(target: Option<string>, table: string, scansLink: Option<string>)
    requires !EndsWith(table, LinkClose)
    ensures EndsWith(Compose(target, table, scansLink), LinkClose) <==> scansLink.Some?
  {
    var header := TargetHeader(target);
    var text := Compose(target, table, scansLink);
    if scansLink.None? {
      assert text == header + table;
      if |LinkClose| <= |table| {
        assert text[|text| - |LinkClose|..] == table[|table| - |LinkClose|..];
      } else if target.Some? {
        assert header[|header| - 1] == '\n';
        if |table| == 1 {
          assert text[|text| - 2] == '\n';
        } else {
          assert text[|text| - 1] == '\n';
        }
      }
    } else {
      Concat2(header + table + LinkOpen + scansLink.value, LinkClose);
    }
  }
}
