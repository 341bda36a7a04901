/** Turning the text an interpreter prints for `--version` into a comparable
    version tuple, as the Windows discovery does before ranking. */
module Version {
  import opened Optional
  import opened Text
  import opened Order

  /** The text `get_python_version` falls back to when the query fails. */
  const Unknown: string := "Version unknown"

  /** The product name the version text starts with, removed before splitting. */
  const ProductPrefix: string := "Python "

  /** What running `<python> --version` produced: its standard output, or an
      error (the process could not be started, or it timed out). */
  datatype VersionReply = Replied(stdout: string) | Crashed

  /** `get_python_version`: the stripped standard output, whatever the exit
      status, or the fallback text when the query itself failed. */
  function VersionText(reply: VersionReply): (text: string)
    ensures text != "" ==> !IsSpace(text[0]) && !IsSpace(text[|text| - 1])
    ensures reply.Replied? ==> text == Strip(reply.stdout)
    ensures reply.Crashed? ==> text == Unknown
  {
    match reply
    case Replied(out) => Strip(out)
    case Crashed => Unknown
  }

  predicate IsDigit(c: char) {
    '0' <= c <= '9'
  }

  ghost predicate AllDigits(s: string) {
    forall k | 0 <= k < |s| :: IsDigit(s[k])
  }

  function DigitValue(c: char): nat
    requires IsDigit(c)
  {
    c as int - '0' as int
  }

  function Digit(d: nat): (c: char)
    requires d < 10
    ensures IsDigit(c) && DigitValue(c) == d
  {
    ('0' as int + d) as char
  }

  /** The decimal value of a string of digits; leading zeros are allowed, as `int("007")` is 7. */
  function DecimalValue(s: string): nat
    requires AllDigits(s)
  {
    if |s| == 0 then 0 else DecimalValue(s[..|s| - 1]) * 10 + DigitValue(s[|s| - 1])
  }

  /** `int(segment)` restricted to plain ASCII decimals: a non-empty run of digits. */
  function ParseNat(s: string): Option<nat> {
    if s != "" && forall k | 0 <= k < |s| :: IsDigit(s[k]) then Some(DecimalValue(s)) else None
  }

  /** The shortest decimal spelling of `n`, as `str(n)` writes it. */
  function ShowNat(n: nat): (s: string)
    ensures s != "" && AllDigits(s)
  {
    if n < 10 then [Digit(n)] else ShowNat(n / 10) + [Digit(n % 10)]
  }

  lemma {:induction false} ParseShowNat(n: nat)
    ensures ParseNat(ShowNat(n)) == Some(n)
  {
    var s := ShowNat(n);
    if n >= 10 {
      ParseShowNat(n / 10);
      assert s[..|s| - 1] == ShowNat(n / 10);
      assert DecimalValue(s) == DecimalValue(ShowNat(n / 10)) * 10 + n % 10;
    } else {
      assert s[..0] == [];
      assert DecimalValue(s) == n;
    }
  }

  /** The pieces of a version text: every `"Python "` removed, then split on `.`. */
  function Segments(raw: string): seq<string> {
    Split(RemoveAll(raw, ProductPrefix), '.')
  }

  /** Parses every segment, failing as a whole if any one fails. */
  function ParseAll(segments: seq<string>): (r: Option<seq<nat>>)
    ensures r.Some? <==> forall i | 0 <= i < |segments| :: ParseNat(segments[i]).Some?
    ensures r.Some? ==> |r.value| == |segments|
    ensures r.Some? ==> forall i | 0 <= i < |segments| :: ParseNat(segments[i]) == Some(r.value[i])
  {
    if |segments| == 0 then Some([])
    else
      match ParseNat(segments[0])
      case None => None
      case Some(n) =>
        match ParseAll(segments[1..])
        case None =>
          assert forall i | 1 <= i < |segments| :: segments[1..][i - 1] == segments[i];
          None
        case Some(ns) => Some([n] + ns)
  }

  /** `tuple(int(num) for num in version.replace("Python ", "").split("."))`,
      with `None` where the conversion raises `ValueError`. */
  function ParseVersion(raw: string): (r: Option<seq<nat>>)
    ensures r.Some? <==> forall i | 0 <= i < |Segments(raw)| :: ParseNat(Segments(raw)[i]).Some?
    ensures r.Some? ==> |r.value| == |Segments(raw)| >= 1
  {
    ParseAll(Segments(raw))
  }

  /** A version tuple written the way an interpreter reports it: `3.10.11`. */
  function RenderVersion(v: seq<nat>): (s: string)
    requires |v| >= 1
    ensures forall c | c in s :: c == '.' || IsDigit(c)
  {
    if |v| == 1 then ShowNat(v[0]) else ShowNat(v[0]) + "." + RenderVersion(v[1..])
  }

  function RenderedSegments(v: seq<nat>): (pieces: seq<string>)
    requires |v| >= 1
    ensures |pieces| == |v| >= 1
    ensures forall i | 0 <= i < |v| :: pieces[i] == ShowNat(v[i])
    ensures Join(pieces, '.') == RenderVersion(v)
  {
    if |v| == 1 then [ShowNat(v[0])]
    else
      var rest := RenderedSegments(v[1..]);
      assert ([ShowNat(v[0])] + rest)[1..] == rest;
      [ShowNat(v[0])] + rest
  }

  lemma {:induction false} ParseRendered(v: seq<nat>)
    requires |v| >= 1
    ensures ParseAll(RenderedSegments(v)) == Some(v)
    decreases |v|
  {
    var pieces := RenderedSegments(v);
    ParseShowNat(v[0]);
    assert ParseNat(pieces[0]) == Some(v[0]);
    if |v| > 1 {
      ParseRendered(v[1..]);
      assert pieces[1..] == RenderedSegments(v[1..]);
      assert ParseAll(pieces) == Some([v[0]] + v[1..]);
      assert v == [v[0]] + v[1..];
    } else {
      assert pieces[1..] == [];
      assert ParseAll(pieces[1..]) == Some([]);
      assert [v[0]] + [] == [v[0]];
      assert ParseAll(pieces) == Some([v[0]]);
      assert v == [v[0]];
    }
  }

  /** Round trip: the report `Python <v>` parses back to exactly `v`, and so
      does the bare `<v>` (the prefix is optional). */
  lemma VersionRoundTrip(v: seq<nat>)
    requires |v| >= 1
    ensures ParseVersion(ProductPrefix + RenderVersion(v)) == Some(v)
    ensures ParseVersion(RenderVersion(v)) == Some(v)
  {
    var text := RenderVersion(v);
    assert 'P' !in text;
    RemoveAllAbsent(text, ProductPrefix);
    var full := ProductPrefix + text;
    assert StartsWith(full, ProductPrefix) && full[|ProductPrefix|..] == text;
    assert RemoveAll(full, ProductPrefix) == text;
    var pieces := RenderedSegments(v);
    forall i | 0 <= i < |pieces| ensures '.' !in pieces[i] {
      assert pieces[i] == ShowNat(v[i]);
    }
    SplitJoin(pieces, '.');
    ParseRendered(v);
  }

  /** A failed query never yields a version, and neither does empty output:
      such candidates cannot be ranked. */
  lemma UnparseableReports()
    ensures ParseVersion(Unknown) == None
    ensures ParseVersion(VersionText(Crashed)) == None
    ensures ParseVersion("") == None
  {
    assert 'P' !in Unknown;
    RemoveAllAbsent(Unknown, ProductPrefix);
    assert '.' !in Unknown;
    assert Segments(Unknown) == [Unknown];
    assert !IsDigit(Unknown[0]);
    assert Segments("") == [""];
  }

  lemma RenderExample391()
    ensures RenderVersion([3, 9, 1]) == "3.9.1"
  {
    assert [3, 9, 1][1..] == [9, 1] && [9, 1][1..] == [1];
    assert RenderVersion([1]) == "1";
  }

  lemma RenderExample3100()
    ensures RenderVersion([3, 10, 0]) == "3.10.0"
  {
    assert ShowNat(10) == ShowNat(1) + [Digit(0)] == "10";
    assert [3, 10, 0][1..] == [10, 0] && [10, 0][1..] == [0];
    assert RenderVersion([0]) == "0";
  }

  /** The report of a known version parses back to it. */
  lemma ReportParses(v: seq<nat>, text: string, report: string)
    requires |v| >= 1 && RenderVersion(v) == text && report == ProductPrefix + text
    ensures ParseVersion(report) == Some(v)
  {
    VersionRoundTrip(v);
  }

  lemma ParsesExample391()
    ensures ParseVersion("Python 3.9.1") == Some([3, 9, 1])
  {
    RenderExample391();
    ReportParses([3, 9, 1], "3.9.1", "Python 3.9.1");
  }

  lemma ParsesExample3100()
    ensures ParseVersion("Python 3.10.0") == Some([3, 10, 0])
  {
    RenderExample3100();
    ReportParses([3, 10, 0], "3.10.0", "Python 3.10.0");
  }

  /** Versions compare as numbers, not as text: 3.9.1 ranks below 3.10.0. */
  lemma NumericNotTextual()
    ensures ParseVersion("Python 3.9.1") == Some([3, 9, 1])
    ensures ParseVersion("Python 3.10.0") == Some([3, 10, 0])
    ensures LexLt([3, 9, 1], [3, 10, 0])
  {
    ParsesExample391();
    ParsesExample3100();
  }

  /** ... whereas the same texts compared as strings come out the other way round. */
  lemma TextualOrderDiffers()
    ensures LexLt(Codes("3.10.0"), Codes("3.9.1"))
  {
    var a, b := Codes("3.10.0"), Codes("3.9.1");
    assert a[..2] == b[..2];
    assert a[2] < b[2];
    assert LtAt(a, b, 2);
    LexLtIffFirstDifference(a, b);
  }

  /** `(3, 9) < (3, 9, 1) < (3, 10)`: no padding, a prefix ranks first. */
  lemma PrefixOrdering()
    ensures LexLt([3, 9], [3, 9, 1]) && LexLt([3, 9, 1], [3, 10])
  {
    PrefixRanksFirst([3, 9], [1]);
    assert [3, 9] + [1] == [3, 9, 1];
  }
}
