/** The identity of a run report: the `|`-joined canonical text of its nine
    key fields, and the key functions built on it (api/app/main.py:48-53). */
module Identity {
  import opened Wrappers
  import opened Models

  // ---------------------------------------------------------------------
  // Decimal rendering of integers

  predicate IsDigit(c: char) {
    '0' <= c <= '9'
  }

  predicate AllDigits(s: string) {
    forall i :: 0 <= i < |s| ==> IsDigit(s[i])
  }

  function DigitChar(d: nat): (c: char)
    requires d < 10
    ensures IsDigit(c)
  {
    (48 + d) as char
  }

  function DigitValue(c: char): nat
    requires IsDigit(c)
  {
    c as int - 48
  }

  /** The decimal digits of `n`, most significant first, without padding. */
  function NatText(n: nat): (s: string)
    ensures |s| >= 1 && AllDigits(s)
  {
    if n < 10 then [DigitChar(n)] else NatText(n / 10) + [DigitChar(n % 10)]
  }

  /** The value of a string of decimal digits. */
  function NatValue(s: string): nat
    requires AllDigits(s)
  {
    if |s| == 0 then 0 else NatValue(s[..|s| - 1]) * 10 + DigitValue(s[|s| - 1])
  }

  lemma {:induction false} NatTextRoundTrip(n: nat)
    ensures NatValue(NatText(n)) == n
  {
    if n >= 10 {
      var s := NatText(n);
      assert s[..|s| - 1] == NatText(n / 10);
      NatTextRoundTrip(n / 10);
    }
  }

  /** The number of decimal digits at the front of `s`. */
  function LeadingDigits(s: string): (n: nat)
    ensures n <= |s| && AllDigits(s[..n])
    ensures n < |s| ==> !IsDigit(s[n])
  {
    if |s| == 0 || !IsDigit(s[0]) then 0
    else
      var m := LeadingDigits(s[1..]);
      assert s[..m + 1] == [s[0]] + s[1..][..m];
      m + 1
  }

  lemma {:induction false} LeadingDigitsOfDigits(d: string, rest: string)
    requires AllDigits(d)
    requires |rest| == 0 || !IsDigit(rest[0])
    ensures LeadingDigits(d + rest) == |d|
  {
    if |d| > 0 {
      assert (d + rest)[1..] == d[1..] + rest;
      LeadingDigitsOfDigits(d[1..], rest);
    }
  }

  // ---------------------------------------------------------------------
  // Timestamps as text

  /** A signed decimal: a leading `-` for negative values. */
  function IntText(n: int): string {
    if n < 0 then "-" + NatText(-n) else NatText(n)
  }

  /** The offset suffix: nothing for a naive reading, otherwise an explicit
      sign (`+` for zero) followed by the offset's magnitude. */
  function OffsetText(offset: Option<int>): string {
    match offset
    case None => ""
    case Some(o) => if o < 0 then "-" + NatText(-o) else "+" + NatText(o)
  }

  /** `isoformat()`: the local reading followed by the offset suffix. Like the
      ISO text it stands for, it spells out the offset, not just the instant. */
  function IsoText(t: Timestamp): string {
    IntText(t.local) + OffsetText(t.offset)
  }

  /** Reads the decimal digits at the front of `s`: their value and the
      text after them. */
  function ParseNat(s: string): (string, nat) {
    var n := LeadingDigits(s);
    (s[n..], NatValue(s[..n]))
  }

  /** Reads a signed decimal at the front of `s`: the text after it and its
      value. */
  function ParseLocal(s: string): (string, int) {
    if |s| > 0 && s[0] == '-' then
      var p := ParseNat(s[1..]);
      (p.0, 0 - p.1)
    else
      var p := ParseNat(s);
      (p.0, p.1)
  }

  /** Reads an offset suffix back: nothing, or a sign followed by digits. */
  function ParseOffsetText(o: string): Option<int> {
    if |o| == 0 then None
    else
      var v: int := ParseNat(o[1..]).1;
      Some(if o[0] == '-' then 0 - v else v)
  }

  /** Reads a timestamp back from its text. */
  function ParseIso(s: string): Timestamp {
    var p := ParseLocal(s);
    Timestamp(p.1, ParseOffsetText(p.0))
  }

  lemma OffsetTextShape(offset: Option<int>)
    ensures var o := OffsetText(offset);
      && (offset.None? <==> |o| == 0)
      && (|o| > 0 ==> !IsDigit(o[0]) && o[0] != '|' && AllDigits(o[1..]))
  {
    match offset
    case None =>
    case Some(v) =>
      var o := OffsetText(offset);
      if v < 0 {
        assert o[1..] == NatText(-v);
      } else {
        assert o[1..] == NatText(v);
      }
  }

  /** Reading the digits of `n` stops where they end. */
  lemma ParseNatText(n: nat, rest: string)
    requires |rest| == 0 || !IsDigit(rest[0])
    ensures ParseNat(NatText(n) + rest) == (rest, n)
  {
    var d := NatText(n);
    LeadingDigitsOfDigits(d, rest);
    assert (d + rest)[..|d|] == d;
    assert (d + rest)[|d|..] == rest;
    NatTextRoundTrip(n);
  }

  lemma ParseMinusNatText(n: nat, rest: string)
    requires |rest| == 0 || !IsDigit(rest[0])
    ensures ParseLocal("-" + NatText(n) + rest) == (rest, 0 - n)
  {
    var s := "-" + NatText(n) + rest;
    assert s[1..] == NatText(n) + rest;
    ParseNatText(n, rest);
  }

  lemma ParseIntText(x: int, rest: string)
    requires |rest| == 0 || !IsDigit(rest[0])
    ensures ParseLocal(IntText(x) + rest) == (rest, x)
  {
    if x < 0 {
      ParseMinusNatText(-x, rest);
    } else {
      assert (NatText(x) + rest)[0] == NatText(x)[0];
      ParseNatText(x, rest);
    }
  }

  lemma ParseOffset(offset: Option<int>)
    ensures ParseOffsetText(OffsetText(offset)) == offset
  {
    match offset
    case None =>
    case Some(v) =>
      var o := OffsetText(offset);
      var mag: nat := if v < 0 then -v else v;
      assert o[1..] == NatText(mag) + "";
      ParseNatText(mag, "");
  }

  /** Rendering a timestamp and reading it back gives the same local reading
      and the same offset. */
  lemma IsoRoundTrip(t: Timestamp)
    ensures ParseIso(IsoText(t)) == t
  {
    OffsetTextShape(t.offset);
    ParseIntText(t.local, OffsetText(t.offset));
    ParseOffset(t.offset);
  }

  /** Two readings have the same text only if they agree on both the local
      reading and the offset. */
  lemma IsoTextInjective(a: Timestamp, b: Timestamp)
    ensures IsoText(a) == IsoText(b) <==> a == b
  {
    if IsoText(a) == IsoText(b) {
      IsoRoundTrip(a);
      IsoRoundTrip(b);
    }
  }

  lemma IsoTextShape(t: Timestamp)
    ensures |IsoText(t)| > 0
    ensures '|' !in IsoText(t)
  {
    OffsetTextShape(t.offset);
    var mag: nat := if t.local < 0 then -t.local else t.local;
    var s := IsoText(t);
    var d := NatText(mag);
    var o := OffsetText(t.offset);
    forall i | 0 <= i < |s| ensures s[i] != '|' {
      if t.local < 0 {
        assert s == "-" + d + o;
        if i > 0 && i <= |d| {
          assert s[i] == d[i - 1];
        } else if i > |d| {
          assert s[i] == o[i - 1 - |d|];
          if i - 1 - |d| > 0 {
            assert o[i - 1 - |d|] == o[1..][i - 2 - |d|];
          }
        }
      } else {
        assert s == d + o;
        if i < |d| {
          assert s[i] == d[i];
        } else {
          assert s[i] == o[i - |d|];
          if i - |d| > 0 {
            assert o[i - |d|] == o[1..][i - 1 - |d|];
          }
        }
      }
    }
  }

  // ---------------------------------------------------------------------
  // The canonical key input

  /** An optional text field as the key input reads it: an absent value
      and an empty one read the same. */
  function OrEmpty(o: Option<string>): string {
    o.GetOr("")
  }

  /** The end field of the key input: the end's text, or nothing without an end. */
  function EndText(e: Option<Timestamp>): string {
    match e
    case None => ""
    case Some(t) => IsoText(t)
  }

  /** The nine key fields in key order. */
  function KeyFields(r: Report): seq<string> {
    [r.buildId, r.branch, IsoText(r.startTime), EndText(r.endTime), ResultTag(r.result),
     OrEmpty(r.repoName), OrEmpty(r.commitSha), OrEmpty(r.runner), OrEmpty(r.workflow)]
  }

  /** Concatenation of `parts` with `|` between consecutive parts. */
  function Join(parts: seq<string>): string {
    if |parts| == 0 then ""
    else if |parts| == 1 then parts[0]
    else parts[0] + "|" + Join(parts[1..])
  }

  /** Splitting a text at every `|`; the inverse of `Join` on parts that do
      not themselves contain `|`. */
  function Split(s: string): (parts: seq<string>)
    ensures |parts| >= 1
  {
    if |s| == 0 then [""]
    else if s[0] == '|' then [""] + Split(s[1..])
    else
      var rest := Split(s[1..]);
      [[s[0]] + rest[0]] + rest[1..]
  }

  lemma {:induction false} SplitPlain(a: string)
    requires '|' !in a
    ensures Split(a) == [a]
  {
    if |a| > 0 {
      SplitPlain(a[1..]);
      assert [a[0]] + a[1..] == a;
    }
  }

  lemma {:induction false} SplitAtFirstBar(a: string, b: string)
    requires '|' !in a
    ensures Split(a + "|" + b) == [a] + Split(b)
  {
    if |a| == 0 {
      assert a + "|" + b == "|" + b;
      assert ("|" + b)[1..] == b;
    } else {
      assert (a + "|" + b)[1..] == a[1..] + "|" + b;
      SplitAtFirstBar(a[1..], b);
      assert [a[0]] + a[1..] == a;
    }
  }

  predicate BarFree(parts: seq<string>) {
    forall i :: 0 <= i < |parts| ==> '|' !in parts[i]
  }

  /** Splitting the joined parts gives the parts back, provided none of them
      contains the separator. */
  lemma {:induction false} SplitJoin(parts: seq<string>)
    requires |parts| >= 1 && BarFree(parts)
    ensures Split(Join(parts)) == parts
  {
    if |parts| == 1 {
      SplitPlain(parts[0]);
    } else {
      SplitAtFirstBar(parts[0], Join(parts[1..]));
      SplitJoin(parts[1..]);
      assert [parts[0]] + parts[1..] == parts;
    }
  }

  /** The canonical key input of a report (main.py:48-52). */
  function KeyInput(r: Report): string {
    Join(KeyFields(r))
  }

  /** The key `ingest_events` stores: the hex digest of the key input under
      `hash`, a parameter standing for SHA-256 about which nothing is
      assumed. */
  function HashKey(hash: string -> string, r: Report): string {
    hash(KeyInput(r))
  }

  /** The natural key (build_id, branch) named by the endpoint's description
      and by the `uq_build_branch` constraint. */
  function NaturalKey(r: Report): (string, string) {
    (r.buildId, r.branch)
  }

  /** No free-text field of `r` contains the separator. */
  predicate BarFreeReport(r: Report) {
    && '|' !in r.buildId && '|' !in r.branch
    && '|' !in OrEmpty(r.repoName) && '|' !in OrEmpty(r.commitSha)
    && '|' !in OrEmpty(r.runner) && '|' !in OrEmpty(r.workflow)
  }

  /** Agreement on everything the key input reads: the build, branch,
      result, both readings with their offsets, and the metadata up to
      `or ''`. */
  predicate SameKeyFields(a: Report, b: Report) {
    && a.buildId == b.buildId && a.branch == b.branch && a.result == b.result
    && a.startTime == b.startTime && a.endTime == b.endTime
    && OrEmpty(a.repoName) == OrEmpty(b.repoName)
    && OrEmpty(a.commitSha) == OrEmpty(b.commitSha)
    && OrEmpty(a.runner) == OrEmpty(b.runner)
    && OrEmpty(a.workflow) == OrEmpty(b.workflow)
  }

  lemma ResultTagBarFree(res: RunResult)
    ensures '|' !in ResultTag(res)
  {
    var t := ResultTag(res);
    forall i | 0 <= i < |t| ensures t[i] != '|' {
      match res
      case Success =>
      case Failed =>
      case Canceled =>
      case Running =>
    }
  }

  lemma EndTextBarFree(e: Option<Timestamp>)
    ensures '|' !in EndText(e)
  {
    if e.Some? {
      IsoTextShape(e.value);
    }
  }

  lemma KeyFieldsBarFree(r: Report)
    requires BarFreeReport(r)
    ensures BarFree(KeyFields(r))
  {
    IsoTextShape(r.startTime);
    EndTextBarFree(r.endTime);
    ResultTagBarFree(r.result);
    var f := KeyFields(r);
    assert f[2] == IsoText(r.startTime) && f[3] == EndText(r.endTime) && f[4] == ResultTag(r.result);
  }

  /** Reports that agree on the nine key fields get the same key input, and
      hence the same key under any hash. */
  lemma SameFieldsSameKey(a: Report, b: Report, hash: string -> string)
    requires SameKeyFields(a, b)
    ensures KeyInput(a) == KeyInput(b)
    ensures HashKey(hash, a) == HashKey(hash, b)
  {
    assert KeyFields(a) == KeyFields(b);
  }

  /** For reports whose text fields are free of `|`, the key input is equal
      exactly when the nine key fields agree: the key input then determines
      the report up to `or ''` on the metadata. */
  lemma KeyInputExact(a: Report, b: Report)
    requires BarFreeReport(a) && BarFreeReport(b)
    ensures KeyInput(a) == KeyInput(b) <==> SameKeyFields(a, b)
  {
    if KeyInput(a) == KeyInput(b) {
      KeyFieldsBarFree(a);
      KeyFieldsBarFree(b);
      SplitJoin(KeyFields(a));
      SplitJoin(KeyFields(b));
      var fa, fb := KeyFields(a), KeyFields(b);
      assert fa == fb;
      assert fa[2] == fb[2];
      IsoTextInjective(a.startTime, b.startTime);
      assert fa[3] == fb[3];
      match a.endTime
      case None =>
        if b.endTime.Some? {
          IsoTextShape(b.endTime.value);
        }
      case Some(ea) =>
        IsoTextShape(ea);
        if b.endTime.Some? {
          IsoTextInjective(ea, b.endTime.value);
        }
      assert fa[4] == fb[4];
      ResultIsClosed();
      assert ParseResult(ResultTag(a.result)) == Some(a.result);
    } else if SameKeyFields(a, b) {
      SameFieldsSameKey(a, b, s => s);
    }
  }

  lemma JoinFront2(parts: seq<string>)
    requires |parts| >= 3
    ensures Join(parts) == parts[0] + "|" + parts[1] + "|" + Join(parts[2..])
  {
    JoinUnfold(parts);
    JoinUnfold(parts[1..]);
    assert parts[1..][1..] == parts[2..];
  }

  lemma MovedBar(rest: string)
    ensures "a|b" + "|" + "c" + "|" + rest == "a" + "|" + "b|c" + "|" + rest
  {
    var x: string := "a|b" + "|" + "c";
    var y: string := "a" + "|" + "b|c";
    assert forall i :: 0 <= i < 5 ==> x[i] == y[i];
    assert x == y;
  }

  /** The separator is not escaped: moving a `|` from the build id into the
      branch leaves the key input unchanged, so two different runs share one
      key under every hash. */
  lemma BarInFieldsCollides(r: Report, hash: string -> string)
    requires r.buildId == "a|b" && r.branch == "c"
    ensures var r' := r.(buildId := "a", branch := "b|c");
      r != r' && KeyInput(r) == KeyInput(r') && HashKey(hash, r) == HashKey(hash, r')
  {
    var r' := r.(buildId := "a", branch := "b|c");
    assert r.buildId != r'.buildId;
    var f, f' := KeyFields(r), KeyFields(r');
    assert f[2..] == f'[2..];
    JoinFront2(f);
    JoinFront2(f');
    MovedBar(Join(f[2..]));
  }

  /** An absent metadata field and an empty one give the same key input. */
  lemma EmptyMetadataLikeAbsent(r: Report)
    requires r.repoName == Some("")
    ensures KeyInput(r) == KeyInput(r.(repoName := None))
  {
    SameFieldsSameKey(r, r.(repoName := None), s => s);
  }

  lemma BarPrefixCancel(x: string, y: string, u: string, v: string)
    requires '|' !in x && '|' !in y
    requires x + "|" + u == y + "|" + v
    ensures x == y
  {
    SplitAtFirstBar(x, u);
    SplitAtFirstBar(y, v);
    assert ([x] + Split(u))[0] == x;
    assert ([y] + Split(v))[0] == y;
  }

  lemma JoinUnfold(parts: seq<string>)
    requires |parts| >= 2
    ensures Join(parts) == parts[0] + "|" + Join(parts[1..])
  {
  }

  /** The key input around its start field: build, branch, the start text,
      then the remaining six fields. */
  lemma KeyInputAroundStart(r: Report)
    ensures KeyInput(r) ==
      (r.buildId + "|" + r.branch + "|") + (IsoText(r.startTime) + "|" + Join(KeyFields(r)[3..]))
  {
    var f := KeyFields(r);
    JoinFront2(f);
    JoinUnfold(f[2..]);
    assert f[2..][1..] == f[3..];
  }

  /** The key input reads the start time's text, offset included: rewriting a
      report's start in a different offset, even one that denotes the same
      instant, changes the key input. Fields may contain `|` here. */
  lemma KeyInputSeesStartOffset(r: Report, t: Timestamp)
    requires r.startTime != t
    ensures KeyInput(r) != KeyInput(r.(startTime := t))
  {
    var r' := r.(startTime := t);
    var prefix := r.buildId + "|" + r.branch + "|";
    var tail := Join(KeyFields(r)[3..]);
    assert KeyFields(r)[3..] == KeyFields(r')[3..];
    KeyInputAroundStart(r);
    KeyInputAroundStart(r');
    if KeyInput(r) == KeyInput(r') {
      var x := IsoText(r.startTime) + "|" + tail;
      var y := IsoText(t) + "|" + tail;
      assert x == (prefix + x)[|prefix|..];
      assert y == (prefix + y)[|prefix|..];
      IsoTextShape(r.startTime);
      IsoTextShape(t);
      BarPrefixCancel(IsoText(r.startTime), IsoText(t), tail, tail);
      IsoTextInjective(r.startTime, t);
    }
  }

  /** 10:00 at UTC and 12:00 at UTC+2 are the same instant but give
      different key inputs. */
  lemma SameInstantDifferentKeyInput(r: Report)
    requires r.startTime == Timestamp(36000, Some(0))
    ensures var t := Timestamp(43200, Some(7200));
      && Instant(t) == Instant(r.startTime)
      && KeyInput(r) != KeyInput(r.(startTime := t))
  {
    KeyInputSeesStartOffset(r, Timestamp(43200, Some(7200)));
  }
}
