/**
 * `ingest.py`: turns the raw text a user pastes into numbered ACs. A JSON document is read
 * through its usual shapes; anything else is split into lines, where a blank line ends an
 * AC, a bulleted or numbered line starts one, and every other line continues the current
 * one. The JSON parser is a parameter.
 */
module Ingest {
  import opened Wrappers
  import opened Strings
  import opened PyJson
  import RunMain

  // ---------------------------------------------------------------------------
  // BULLET_RE
  // ---------------------------------------------------------------------------

  /** `[-*•]`. */
  predicate IsMarkChar(c: char) {
    c == '-' || c == '*' || c == '•'
  }

  /** `[A-Za-z]`. */
  predicate IsAsciiLetter(c: char) {
    ('A' <= c <= 'Z') || ('a' <= c <= 'z')
  }

  /** `[.)]`. */
  predicate IsCloser(c: char) {
    c == '.' || c == ')'
  }

  /** A whole list marker: `-`, `*` or `•`; a decimal number followed by `.` or `)`; or one
      ASCII letter followed by `.` or `)`. */
  predicate IsMarker(m: string) {
    || (|m| == 1 && IsMarkChar(m[0]))
    || (|m| >= 2 && AllDigits(m[..|m| - 1]) && IsCloser(m[|m| - 1]))
    || (|m| == 2 && IsAsciiLetter(m[0]) && IsCloser(m[1]))
  }

  /** The number of ASCII digits `s` starts with. */
  function DigitRun(s: string): (n: nat)
    ensures n <= |s| && AllDigits(s[..n]) && (n < |s| ==> !IsDigit(s[n]))
  {
    if |s| > 0 && IsDigit(s[0]) then 1 + DigitRun(s[1..]) else 0
  }

  /** The length of the marker `s` starts with, `0` when it starts with none. Each
      alternative of the pattern can match in one way only, so no backtracking is needed. */
  function MarkerLen(s: string): (n: nat)
    ensures n <= |s|
  {
    if |s| == 0 then 0
    else if IsMarkChar(s[0]) then 1
    else if IsDigit(s[0]) then
      var d := DigitRun(s);
      if d < |s| && IsCloser(s[d]) then d + 1 else 0
    else if |s| >= 2 && IsAsciiLetter(s[0]) && IsCloser(s[1]) then 2
    else 0
  }

  /** `BULLET_RE.match(ln)`, and then `BULLET_RE.sub("", ln)`: the text after leading
      whitespace, a marker and at least one whitespace character, or `None` when the line
      does not start that way. */
  function BulletBody(ln: string): Option<string> {
    var rest := LStrip(ln);
    var m := MarkerLen(rest);
    if m == 0 then None
    else
      var after := rest[m..];
      if |after| > 0 && IsSpace(after[0]) then Some(LStrip(after)) else None
  }

  predicate IsBullet(ln: string) {
    BulletBody(ln).Some?
  }

  /** `MarkerLen` finds exactly the markers of `IsMarker`, when the marker is followed by
      whitespace. */
  lemma MarkerLenOf(m: string, rest: string)
    requires IsMarker(m) && |rest| > 0 && IsSpace(rest[0])
    ensures MarkerLen(m + rest) == |m|
  {
    var s := m + rest;
    if |m| >= 2 && AllDigits(m[..|m| - 1]) && IsCloser(m[|m| - 1]) {
      DigitRunOf(m[..|m| - 1], s[|m| - 1..]);
      assert s == m[..|m| - 1] + s[|m| - 1..];
    }
  }

  lemma {:induction false} DigitRunOf(d: string, rest: string)
    requires AllDigits(d) && |rest| > 0 && !IsDigit(rest[0])
    ensures DigitRun(d + rest) == |d|
    decreases |d|
  {
    if |d| > 0 {
      DigitRunOf(d[1..], rest);
      assert (d + rest)[1..] == d[1..] + rest;
    }
  }

  /** The marker `MarkerLen` finds is a marker. */
  lemma MarkerLenIsMarker(s: string)
    requires MarkerLen(s) > 0
    ensures IsMarker(s[..MarkerLen(s)])
  {
    var m := s[..MarkerLen(s)];
    if !IsMarkChar(s[0]) && IsDigit(s[0]) {
      assert m[..|m| - 1] == s[..DigitRun(s)];
    }
  }

  /** A line is a bullet exactly when it is whitespace, a marker, at least one whitespace
      character and a body that does not start with whitespace; the body is what is left
      once the prefix is removed. */
  lemma BulletShape(ln: string, b: string)
    ensures BulletBody(ln) == Some(b) <==>
      exists lead, m, ws :: ln == lead + m + ws + b && AllSpace(lead) && IsMarker(m)
        && |ws| > 0 && AllSpace(ws) && (|b| == 0 || !IsSpace(b[0]))
  {
    if BulletBody(ln) == Some(b) {
      var lead, m, ws := BulletParts(ln);
    }
    if exists lead, m, ws :: ln == lead + m + ws + b && AllSpace(lead) && IsMarker(m)
        && |ws| > 0 && AllSpace(ws) && (|b| == 0 || !IsSpace(b[0])) {
      var lead, m, ws :| ln == lead + m + ws + b && AllSpace(lead) && IsMarker(m)
        && |ws| > 0 && AllSpace(ws) && (|b| == 0 || !IsSpace(b[0]));
      BulletOfParts(lead, m, ws, b);
    }
  }

  /** The parts of a line `BulletBody` accepts. */
  lemma BulletParts(ln: string) returns (lead: string, m: string, ws: string)
    requires IsBullet(ln)
    ensures var b := BulletBody(ln).value;
      && ln == lead + m + ws + b && AllSpace(lead) && IsMarker(m)
      && |ws| > 0 && AllSpace(ws) && (|b| == 0 || !IsSpace(b[0]))
  {
    var rest := LStrip(ln);
    var k := MarkerLen(rest);
    var after := rest[k..];
    var b := LStrip(after);
    assert BulletBody(ln).value == b && k > 0 && |after| > 0 && IsSpace(after[0]);
    lead := SpacePrefix(ln);
    m := rest[..k];
    MarkerLenIsMarker(rest);
    assert rest == m + after;
    ws := SpacePrefix(after);
    Concat4(lead, m, ws, b);
  }

  /** The whitespace `lstrip` removes: `s` is that prefix followed by `s.lstrip()`. */
  lemma SpacePrefix(s: string) returns (w: string)
    ensures s == w + LStrip(s) && AllSpace(w)
    ensures |s| > 0 && IsSpace(s[0]) ==> |w| > 0
    ensures |LStrip(s)| == 0 || !IsSpace(LStrip(s)[0])
  {
    LStripSpec(s);
    w := s[..|s| - |LStrip(s)|];
    assert s == w + s[|s| - |LStrip(s)|..];
  }

  /** A line built from whitespace, a marker, whitespace and a body is a bullet with that
      body. */
  lemma BulletOfParts(lead: string, m: string, ws: string, b: string)
    requires AllSpace(lead) && IsMarker(m) && |ws| > 0 && AllSpace(ws) && (|b| == 0 || !IsSpace(b[0]))
    ensures BulletBody(lead + m + ws + b) == Some(b)
  {
    var ln := lead + m + ws + b;
    Concat4(lead, m, ws, b);
    MarkerNotSpace(m);
    assert (m + (ws + b))[0] == m[0];
    LeadingSpaceDropped(lead, m + (ws + b));
    assert LStrip(ln) == m + (ws + b);
    MarkerLenOf(m, ws + b);
    assert LStrip(ln)[|m|..] == ws + b;
    LeadingSpaceDropped(ws, b);
  }

  lemma Concat4(a: string, b: string, c: string, d: string)
    ensures a + b + c + d == a + (b + (c + d))
  {
  }

  lemma MarkerNotSpace(m: string)
    requires IsMarker(m)
    ensures !IsSpace(m[0])
  {
    if |m| >= 2 && AllDigits(m[..|m| - 1]) {
      assert m[..|m| - 1][0] == m[0];
    }
  }

  /** `lstrip` drops an all-whitespace prefix and stops at the first non-space. */
  lemma {:induction false} LeadingSpaceDropped(w: string, s: string)
    requires AllSpace(w) && (|s| == 0 || !IsSpace(s[0]))
    ensures LStrip(w + s) == s
    decreases |w|
  {
    if |w| > 0 {
      LeadingSpaceDropped(w[1..], s);
      assert (w + s)[1..] == w[1..] + s;
    }
  }

  /** A bullet line is never blank, and the body of a line without trailing whitespace is
      not blank either. */
  lemma BulletNotBlank(ln: string)
    requires IsBullet(ln)
    ensures !Blank(ln)
    ensures (|ln| > 0 && !IsSpace(ln[|ln| - 1])) ==> !Blank(BulletBody(ln).value)
  {
    var rest := LStrip(ln);
    assert |rest| > 0 && !IsSpace(rest[0]) && rest == ln[|ln| - |rest|..] by {
      LStripSpec(ln);
    }
    assert ln[|ln| - |rest|] == rest[0];
    if |ln| > 0 && !IsSpace(ln[|ln| - 1]) {
      BodyKeepsLastChar(ln);
    }
  }

  /** The body of a bullet is a non-empty suffix of the line when the line does not end in
      whitespace. */
  lemma BodyKeepsLastChar(ln: string)
    requires IsBullet(ln) && |ln| > 0 && !IsSpace(ln[|ln| - 1])
    ensures !Blank(BulletBody(ln).value)
  {
    var rest := LStrip(ln);
    var after := rest[MarkerLen(rest)..];
    var b := LStrip(after);
    assert BulletBody(ln).value == b && |after| > 0;
    var w1 := SpacePrefix(ln);
    assert rest[|rest| - 1] == ln[|ln| - 1];
    assert after[|after| - 1] == rest[|rest| - 1];
    var w2 := SpacePrefix(after);
    assert |b| > 0 by {
      assert |b| == 0 ==> after == w2;
    }
    assert b[|b| - 1] == after[|after| - 1];
  }

  // ---------------------------------------------------------------------------
  // str.splitlines
  // ---------------------------------------------------------------------------

  /** The characters `str.splitlines` breaks at. */
  predicate IsLineBreak(c: char) {
    || c == '\n' || c == '\r' || c == '\U{000B}' || c == '\U{000C}'
    || ('\U{001C}' <= c <= '\U{001E}') || c == '\U{0085}' || c == '\U{2028}' || c == '\U{2029}'
  }

  predicate NoBreak(s: string) {
    forall i :: 0 <= i < |s| ==> !IsLineBreak(s[i])
  }

  /** The position of the first line break, or `|s|`. */
  function LineEnd(s: string): (i: nat)
    ensures i <= |s| && NoBreak(s[..i]) && (i < |s| ==> IsLineBreak(s[i]))
  {
    if |s| == 0 || IsLineBreak(s[0]) then 0
    else
      var i := 1 + LineEnd(s[1..]);
      assert s[..i] == [s[0]] + s[1..][..i - 1];
      i
  }

  /** Where the line after the first one starts: past the first break, and past both
      characters of a `\r\n`. Only whitespace lies between the end of the first line and the
      start of the next. */
  function NextLine(s: string): (next: nat)
    requires |s| > 0
    ensures LineEnd(s) < next <= |s| || LineEnd(s) == next == |s|
    ensures AllSpace(s[LineEnd(s)..next])
  {
    var i := LineEnd(s);
    if i == |s| then i else if s[i] == '\r' && i + 1 < |s| && s[i + 1] == '\n' then i + 2 else i + 1
  }

  /** `s.splitlines()`: the lines without their breaks, where `\r\n` is one break and a
      final break does not open an empty line. */
  function SplitLines(s: string): (ls: seq<string>)
    ensures forall k :: 0 <= k < |ls| ==> NoBreak(ls[k])
    decreases |s|
  {
    if |s| == 0 then []
    else
      var i := LineEnd(s);
      [s[..i]] + SplitLines(s[NextLine(s)..])
  }

  /** Every line followed by `\n`. */
  function Terminated(ls: seq<string>): string {
    if |ls| == 0 then "" else ls[0] + "\n" + Terminated(ls[1..])
  }

  /** A line followed by a break ends at that break. */
  lemma {:induction false} LineEndAt(l: string, rest: string)
    requires NoBreak(l) && |rest| > 0 && IsLineBreak(rest[0])
    ensures LineEnd(l + rest) == |l|
    decreases |l|
  {
    if |l| > 0 {
      LineEndAt(l[1..], rest);
      assert (l + rest)[1..] == l[1..] + rest;
    }
  }

  /** A line without breaks followed by `\n` is the first line. */
  lemma SplitAtNewline(l: string, rest: string)
    requires NoBreak(l)
    ensures SplitLines(l + "\n" + rest) == [l] + SplitLines(rest)
  {
    var s := l + "\n" + rest;
    assert s == l + ("\n" + rest);
    LineEndAt(l, "\n" + rest);
    assert s[|l|] == '\n';
    assert s[..|l|] == l;
    assert s[|l| + 1..] == rest;
  }

  /** Lines written one per `\n`-terminated line are read back as they were. */
  lemma {:induction false} SplitTerminated(ls: seq<string>)
    requires forall k :: 0 <= k < |ls| ==> NoBreak(ls[k])
    ensures SplitLines(Terminated(ls)) == ls
  {
    if |ls| > 0 {
      SplitTerminated(ls[1..]);
      SplitAtNewline(ls[0], Terminated(ls[1..]));
    }
  }

  /** A text without line breaks is a single line. */
  lemma SplitSingleLine(s: string)
    requires |s| > 0 && NoBreak(s)
    ensures SplitLines(s) == [s]
  {
    assert s[..|s|] == s;
  }

  /** Only whitespace is lost between lines: a text whose lines are all blank is blank. */
  lemma {:induction false} SplitAllBlank(s: string)
    requires forall k :: 0 <= k < |SplitLines(s)| ==> Blank(SplitLines(s)[k])
    ensures Blank(s)
    decreases |s|
  {
    if |s| > 0 {
      var i := LineEnd(s);
      var next := NextLine(s);
      var ls := SplitLines(s);
      assert ls == [s[..i]] + SplitLines(s[next..]);
      assert Blank(ls[0]);
      assert forall k :: 0 <= k < |SplitLines(s[next..])| ==> SplitLines(s[next..])[k] == ls[k + 1];
      SplitAllBlank(s[next..]);
      forall q | 0 <= q < |s| ensures IsSpace(s[q]) {
        if q < i {
          assert s[q] == s[..i][q];
        } else if q < next {
          assert s[q] == s[i..next][q - i];
        } else {
          assert s[q] == s[next..][q - next];
        }
      }
    }
  }

  /** A blank text has only blank lines. */
  lemma {:induction false} SplitOfBlank(s: string)
    requires Blank(s)
    ensures forall k :: 0 <= k < |SplitLines(s)| ==> Blank(SplitLines(s)[k])
    decreases |s|
  {
    if |s| > 0 {
      var i := LineEnd(s);
      var next := NextLine(s);
      SplitOfBlank(s[next..]);
      var ls := SplitLines(s);
      assert ls == [s[..i]] + SplitLines(s[next..]);
      forall k | 0 <= k < |ls| ensures Blank(ls[k]) {
        if k > 0 {
          assert ls[k] == SplitLines(s[next..])[k - 1];
        }
      }
    }
  }

  // ---------------------------------------------------------------------------
  // _extract_acs_from_text
  // ---------------------------------------------------------------------------

  /** What the scan of some lines leaves: the ACs completed, in order, and the lines of the
      AC still being read. The loop only ever appends to its list of ACs, so the list is
      the concatenation of what each line completes. */
  datatype Scan = Scan(acs: seq<string>, buf: seq<string>)

  /** Every AC is non-empty and has no surrounding whitespace. */
  predicate GoodAcs(acs: seq<string>) {
    forall i :: 0 <= i < |acs| ==> |acs[i]| > 0 && Stripped(acs[i])
  }

  /** `[x.strip() for x in buf]`. */
  function StripEach(xs: seq<string>): (r: seq<string>)
    ensures |r| == |xs|
  {
    seq(|xs|, i requires 0 <= i < |xs| => Strip(xs[i]))
  }

  /** `flush()`: the buffered lines, stripped and joined by single spaces, are one more AC
      unless the result is empty. */
  function Emit(buf: seq<string>): (r: seq<string>)
    ensures |r| <= 1 && GoodAcs(r)
  {
    var joined := Strip(Join(" ", StripEach(buf)));
    StripSpec(Join(" ", StripEach(buf)));
    if |joined| > 0 then [joined] else []
  }

  /** One line of the loop, after `rstrip`: the ACs it completes and the new buffer. A blank
      line flushes; a bullet flushes and opens a new AC with the bullet removed; any other
      line joins the current AC. */
  function StepLine(buf: seq<string>, raw: string): Scan {
    var ln := RStrip(raw);
    if Blank(ln) then Scan(Emit(buf), [])
    else match BulletBody(ln)
      case Some(b) => Scan(Emit(buf), [Strip(b)])
      case None => Scan([], buf + [Strip(ln)])
  }

  /** The loop over the lines, for any handling of one line. */
  function ScanWith(step: (seq<string>, string) -> Scan, buf: seq<string>, lines: seq<string>): Scan
    decreases |lines|
  {
    if |lines| == 0 then Scan([], buf)
    else
      var y := step(buf, lines[0]);
      var z := ScanWith(step, y.buf, lines[1..]);
      Scan(y.acs + z.acs, z.buf)
  }

  /** A step that only completes good ACs. */
  ghost predicate KeepsGood(step: (seq<string>, string) -> Scan) {
    forall buf: seq<string>, l: string :: GoodAcs(step(buf, l).acs)
  }

  lemma {:induction false} ScanWithGood(step: (seq<string>, string) -> Scan, buf: seq<string>, lines: seq<string>)
    requires KeepsGood(step)
    ensures GoodAcs(ScanWith(step, buf, lines).acs)
    decreases |lines|
  {
    if |lines| > 0 {
      ScanWithGood(step, step(buf, lines[0]).buf, lines[1..]);
    }
  }

  lemma StepLineGood()
    ensures KeepsGood(StepLine)
  {
  }

  /** The loop of `_extract_acs_from_text` over the lines. */
  function ScanLines(buf: seq<string>, lines: seq<string>): (r: Scan)
    ensures GoodAcs(r.acs)
  {
    StepLineGood();
    ScanWithGood(StepLine, buf, lines);
    ScanWith(StepLine, buf, lines)
  }

  /** `_extract_acs_from_text` on the lines of the text: the loop, then a final flush. */
  function ExtractFromLines(lines: seq<string>): (acs: seq<string>)
    ensures GoodAcs(acs)
  {
    var z := ScanLines([], lines);
    z.acs + Emit(z.buf)
  }

  /** `_extract_acs_from_text(text)`. */
  function ExtractAcsFromText(text: string): (acs: seq<string>)
    ensures GoodAcs(acs)
  {
    ExtractFromLines(SplitLines(text))
  }

  /** Scanning two runs of lines is scanning the first, then the second from the buffer the
      first left. */
  lemma {:induction false} ScanAppend(step: (seq<string>, string) -> Scan, buf: seq<string>, a: seq<string>, b: seq<string>)
    ensures var x := ScanWith(step, buf, a);
      var y := ScanWith(step, x.buf, b);
      ScanWith(step, buf, a + b) == Scan(x.acs + y.acs, y.buf)
    decreases |a|
  {
    if |a| > 0 {
      var s := step(buf, a[0]);
      ScanAppend(step, s.buf, a[1..], b);
      assert (a + b)[0] == a[0];
      assert (a + b)[1..] == a[1..] + b;
      var x' := ScanWith(step, s.buf, a[1..]);
      var y := ScanWith(step, x'.buf, b);
      assert s.acs + (x'.acs + y.acs) == (s.acs + x'.acs) + y.acs;
    } else {
      assert a + b == b;
    }
  }

  /** A line that completes `e` and leaves the buffer `nb` whatever the buffer before it
      cuts the scan in two. */
  lemma OpeningLineSplits(step: (seq<string>, string) -> Scan, a: seq<string>, b: string, c: seq<string>, e: seq<string>, nb: seq<string>)
    requires step(ScanWith(step, [], a).buf, b) == Scan(e, nb)
    ensures var x := ScanWith(step, [], a);
      var w := ScanWith(step, nb, c);
      ScanWith(step, [], a + [b] + c) == Scan(x.acs + e + w.acs, w.buf)
  {
    var x := ScanWith(step, [], a);
    ScanAppend(step, [], a, [b] + c);
    assert a + [b] + c == a + ([b] + c);
    var w := ScanWith(step, nb, c);
    assert ScanWith(step, x.buf, [b] + c) == Scan(e + w.acs, w.buf) by {
      assert ([b] + c)[1..] == c;
    }
    assert x.acs + (e + w.acs) == x.acs + e + w.acs;
  }

  /** The scan of a first line that completes nothing. */
  lemma FirstLine(step: (seq<string>, string) -> Scan, b: string, c: seq<string>, nb: seq<string>)
    requires step([], b) == Scan([], nb)
    ensures ScanWith(step, [], [b] + c) == ScanWith(step, nb, c)
  {
    assert ([b] + c)[1..] == c;
    assert [] + ScanWith(step, nb, c).acs == ScanWith(step, nb, c).acs;
  }

  /** A line that is blank once its trailing whitespace is gone is blank. */
  lemma RStripBlank(s: string)
    ensures Blank(RStrip(s)) <==> Blank(s)
  {
    RStripSpec(s);
    var r := RStrip(s);
    assert s == r + s[|r|..];
    if !Blank(s) {
      assert s[0..] == s;
      assert |r| > 0;
      assert !IsSpace(r[|r| - 1]);
    }
  }

  /** A blank line flushes the current AC. */
  lemma StepBlank(buf: seq<string>, l: string)
    requires Blank(l)
    ensures StepLine(buf, l) == Scan(Emit(buf), [])
  {
    RStripBlank(l);
  }

  /** A bullet line flushes the current AC and opens a new one holding its body. */
  lemma StepBullet(buf: seq<string>, l: string)
    requires IsBullet(RStrip(l))
    ensures StepLine(buf, l) == Scan(Emit(buf), [Strip(BulletBody(RStrip(l)).value)])
  {
    BulletNotBlank(RStrip(l));
  }

  /** A line that is neither blank nor a bullet: it continues the current AC. */
  predicate IsContinuation(l: string) {
    !Blank(l) && !IsBullet(RStrip(l))
  }

  /** Such a line is added, stripped, to the current AC. */
  lemma StepContinuation(buf: seq<string>, l: string)
    requires IsContinuation(l)
    ensures StepLine(buf, l) == Scan([], buf + [Strip(RStrip(l))])
  {
    RStripBlank(l);
  }

  lemma EmitNothing()
    ensures Emit([]) == []
  {
    assert StripEach([]) == [];
  }

  /** A blank line ends the current AC: what comes before and what comes after it are read
      independently. */
  lemma BlankLineSplits(a: seq<string>, b: string, c: seq<string>)
    requires Blank(b)
    ensures ExtractFromLines(a + [b] + c) == ExtractFromLines(a) + ExtractFromLines(c)
  {
    var x := ScanWith(StepLine, [], a);
    StepBlank(x.buf, b);
    OpeningLineSplits(StepLine, a, b, c, Emit(x.buf), []);
  }

  /** A bullet line starts a new AC: what comes before it is read independently. */
  lemma BulletLineStarts(a: seq<string>, b: string, c: seq<string>)
    requires IsBullet(RStrip(b))
    ensures ExtractFromLines(a + [b] + c) == ExtractFromLines(a) + ExtractFromLines([b] + c)
  {
    EmitNothing();
    var nb := [Strip(BulletBody(RStrip(b)).value)];
    var x := ScanWith(StepLine, [], a);
    StepBullet(x.buf, b);
    StepBullet([], b);
    OpeningLineSplits(StepLine, a, b, c, Emit(x.buf), nb);
    FirstLine(StepLine, b, c, nb);
  }

  /** What continuation lines add to the buffer: each line, stripped. */
  function Conts(c: seq<string>): (r: seq<string>)
    ensures |r| == |c|
  {
    seq(|c|, i requires 0 <= i < |c| => Strip(RStrip(c[i])))
  }

  /** A step that adds every line `keep` accepts, stripped, to the buffer. */
  ghost predicate ContinuesLines(step: (seq<string>, string) -> Scan, keep: string -> bool) {
    forall buf: seq<string>, l: string :: keep(l) ==> step(buf, l) == Scan([], buf + [Strip(RStrip(l))])
  }

  lemma StepLineContinues()
    ensures ContinuesLines(StepLine, IsContinuation)
  {
    forall buf: seq<string>, l: string | IsContinuation(l) ensures StepLine(buf, l) == Scan([], buf + [Strip(RStrip(l))]) {
      StepContinuation(buf, l);
    }
  }

  /** Continuation lines complete no AC and only add to the buffer, in order. */
  lemma {:induction false} ContinuationsBuffer(step: (seq<string>, string) -> Scan, keep: string -> bool, buf: seq<string>, c: seq<string>)
    requires ContinuesLines(step, keep)
    requires forall i :: 0 <= i < |c| ==> keep(c[i])
    ensures ScanWith(step, buf, c) == Scan([], buf + Conts(c))
    decreases |c|
  {
    if |c| > 0 {
      var x := Strip(RStrip(c[0]));
      assert step(buf, c[0]) == Scan([], buf + [x]);
      ContinuationsBuffer(step, keep, buf + [x], c[1..]);
      assert Conts(c) == [x] + Conts(c[1..]);
      assert buf + [x] + Conts(c[1..]) == buf + Conts(c);
    } else {
      assert buf + Conts(c) == buf;
    }
  }

  /** The stripped text of a line that is not blank is neither empty nor padded. */
  lemma StrippedLine(l: string)
    requires !Blank(l)
    ensures var t := Strip(RStrip(l)); |t| > 0 && Stripped(t) && !Blank(t)
  {
    RStripBlank(l);
    StripSpec(RStrip(l));
  }

  /** A stripped, non-empty string is not blank. */
  lemma NonEmptyStrippedNotBlank(t: string)
    requires |t| > 0 && Stripped(t)
    ensures !Blank(t)
  {
  }

  /** Parts joined by single spaces: blank exactly when every part is. */
  lemma {:induction false} JoinBlank(xs: seq<string>)
    ensures Blank(Join(" ", xs)) <==> forall i :: 0 <= i < |xs| ==> Blank(xs[i])
    decreases |xs|
  {
    if |xs| > 1 {
      JoinBlank(xs[1..]);
      var j := Join(" ", xs[1..]);
      assert Join(" ", xs) == xs[0] + " " + j;
      assert forall i :: 1 <= i < |xs| ==> xs[1..][i - 1] == xs[i];
      if !Blank(xs[0]) {
        var k :| 0 <= k < |xs[0]| && !IsSpace(xs[0][k]);
        assert Join(" ", xs)[k] == xs[0][k];
      }
      if !Blank(j) {
        var k :| 0 <= k < |j| && !IsSpace(j[k]);
        assert Join(" ", xs)[|xs[0]| + 1 + k] == j[k];
      }
    }
  }

  /** Non-empty stripped parts joined by single spaces give a non-empty stripped string. */
  lemma {:induction false} JoinStripped(xs: seq<string>)
    requires |xs| > 0
    requires forall i :: 0 <= i < |xs| ==> |xs[i]| > 0 && Stripped(xs[i])
    ensures var j := Join(" ", xs);
      |j| > 0 && Stripped(j) && j[0] == xs[0][0] && j[|j| - 1] == xs[|xs| - 1][|xs[|xs| - 1]| - 1]
    decreases |xs|
  {
    if |xs| > 1 {
      JoinStripped(xs[1..]);
      var j := Join(" ", xs[1..]);
      assert Join(" ", xs) == xs[0] + " " + j;
    }
  }

  /** Stripping already stripped parts changes nothing. */
  lemma StripEachStripped(xs: seq<string>)
    requires forall i :: 0 <= i < |xs| ==> Stripped(xs[i])
    ensures StripEach(xs) == xs
  {
    forall i | 0 <= i < |xs| ensures StripEach(xs)[i] == xs[i] {
      StripOfStripped(xs[i]);
    }
  }

  /** Some line of the buffer is not blank. */
  predicate LiveBuf(buf: seq<string>) {
    exists i :: 0 <= i < |buf| && !Blank(buf[i])
  }

  /** `flush()` completes an AC exactly when some buffered line is not blank. */
  lemma EmitIff(buf: seq<string>)
    ensures |Emit(buf)| == 1 <==> LiveBuf(buf)
  {
    var parts := StripEach(buf);
    JoinBlank(parts);
    StripEmptyIffBlank(Join(" ", parts));
    forall i | 0 <= i < |buf| ensures Blank(parts[i]) <==> Blank(buf[i]) {
      StripSpec(buf[i]);
    }
  }

  /** Buffered non-empty stripped lines are flushed as one AC: the lines joined by single
      spaces. */
  lemma EmitJoins(xs: seq<string>)
    requires |xs| > 0
    requires forall i :: 0 <= i < |xs| ==> |xs[i]| > 0 && Stripped(xs[i])
    ensures Emit(xs) == [Join(" ", xs)]
  {
    StripEachStripped(xs);
    JoinStripped(xs);
    StripOfStripped(Join(" ", xs));
  }

  /** Lines that are neither blank nor bullets make a single AC: the lines, stripped and
      joined by single spaces. */
  lemma OneParagraph(c: seq<string>)
    requires |c| > 0
    requires forall i :: 0 <= i < |c| ==> IsContinuation(c[i])
    ensures ExtractFromLines(c) == [Join(" ", Conts(c))]
  {
    StepLineContinues();
    ContinuationsBuffer(StepLine, IsContinuation, [], c);
    assert [] + Conts(c) == Conts(c);
    forall i | 0 <= i < |c| ensures |Conts(c)[i]| > 0 && Stripped(Conts(c)[i]) {
      StrippedLine(c[i]);
    }
    EmitJoins(Conts(c));
  }

  /** The stripped body of a bullet line is neither empty nor padded. */
  lemma BodyNotBlank(b: string)
    requires IsBullet(RStrip(b))
    ensures var t := Strip(BulletBody(RStrip(b)).value); |t| > 0 && Stripped(t) && !Blank(t)
  {
    var ln := RStrip(b);
    BulletNotBlank(ln);
    RStripSpec(b);
    assert |ln| > 0 && !IsSpace(ln[|ln| - 1]);
    StripSpec(BulletBody(ln).value);
  }

  /** A bullet line followed by continuation lines makes a single AC: the bullet's body and
      the lines, stripped and joined by single spaces. */
  lemma BulletParagraph(b: string, c: seq<string>)
    requires IsBullet(RStrip(b))
    requires forall i :: 0 <= i < |c| ==> IsContinuation(c[i])
    ensures ExtractFromLines([b] + c) == [Join(" ", [Strip(BulletBody(RStrip(b)).value)] + Conts(c))]
  {
    var body := Strip(BulletBody(RStrip(b)).value);
    assert ScanWith(StepLine, [], [b] + c) == ScanWith(StepLine, [body], c) by {
      EmitNothing();
      StepBullet([], b);
      FirstLine(StepLine, b, c, [body]);
    }
    StepLineContinues();
    ContinuationsBuffer(StepLine, IsContinuation, [body], c);
    var xs := [body] + Conts(c);
    forall i | 0 <= i < |xs| ensures |xs[i]| > 0 && Stripped(xs[i]) {
      if i == 0 {
        BodyNotBlank(b);
      } else {
        StrippedLine(c[i - 1]);
      }
    }
    EmitJoins(xs);
  }

  /** A line that is not blank, or a live buffer, leaves a completed AC or a live buffer. */
  lemma StepLive(buf: seq<string>, l: string)
    requires LiveBuf(buf) || !Blank(l)
    ensures |StepLine(buf, l).acs| > 0 || LiveBuf(StepLine(buf, l).buf)
  {
    EmitIff(buf);
    if Blank(l) {
      StepBlank(buf, l);
    } else if IsBullet(RStrip(l)) {
      StepBullet(buf, l);
      BodyNotBlank(l);
      assert !Blank(StepLine(buf, l).buf[0]);
    } else {
      StepContinuation(buf, l);
      StrippedLine(l);
      var r := StepLine(buf, l);
      assert !Blank(r.buf[|r.buf| - 1]);
    }
  }

  /** A live buffer, or a line that is not blank, makes the scan complete an AC or end live. */
  lemma {:induction false} ScanLive(step: (seq<string>, string) -> Scan, buf: seq<string>, lines: seq<string>)
    requires forall b', l :: (LiveBuf(b') || !Blank(l)) ==> |step(b', l).acs| > 0 || LiveBuf(step(b', l).buf)
    requires LiveBuf(buf) || exists k :: 0 <= k < |lines| && !Blank(lines[k])
    ensures |ScanWith(step, buf, lines).acs| > 0 || LiveBuf(ScanWith(step, buf, lines).buf)
    decreases |lines|
  {
    if |lines| > 0 {
      var y := step(buf, lines[0]);
      if !LiveBuf(buf) && Blank(lines[0]) {
        var k :| 0 <= k < |lines| && !Blank(lines[k]);
        assert lines[1..][k - 1] == lines[k];
        ScanLive(step, y.buf, lines[1..]);
      } else if |y.acs| == 0 {
        ScanLive(step, y.buf, lines[1..]);
      }
    }
  }

  /** Blank lines leave an empty scan empty. */
  lemma {:induction false} ScanBlank(step: (seq<string>, string) -> Scan, lines: seq<string>)
    requires forall l :: Blank(l) ==> step([], l) == Scan([], [])
    requires forall k :: 0 <= k < |lines| ==> Blank(lines[k])
    ensures ScanWith(step, [], lines) == Scan([], [])
    decreases |lines|
  {
    if |lines| > 0 {
      assert forall k :: 0 <= k < |lines| - 1 ==> lines[1..][k] == lines[k + 1];
      ScanBlank(step, lines[1..]);
    }
  }

  /** Some AC is found exactly when some line is not blank. */
  lemma ExtractNonEmpty(lines: seq<string>)
    ensures |ExtractFromLines(lines)| > 0 <==> exists k :: 0 <= k < |lines| && !Blank(lines[k])
  {
    var z := ScanWith(StepLine, [], lines);
    if exists k :: 0 <= k < |lines| && !Blank(lines[k]) {
      forall b', l | LiveBuf(b') || !Blank(l) ensures |StepLine(b', l).acs| > 0 || LiveBuf(StepLine(b', l).buf) {
        StepLive(b', l);
      }
      ScanLive(StepLine, [], lines);
      EmitIff(z.buf);
    } else {
      forall l | Blank(l) ensures StepLine([], l) == Scan([], []) {
        StepBlank([], l);
        EmitNothing();
      }
      ScanBlank(StepLine, lines);
      EmitNothing();
    }
  }

  /** The text yields some AC exactly when it is not blank. */
  lemma TextNonEmpty(text: string)
    ensures |ExtractAcsFromText(text)| > 0 <==> !Blank(text)
  {
    ExtractNonEmpty(SplitLines(text));
    if Blank(text) {
      SplitOfBlank(text);
    } else if forall k :: 0 <= k < |SplitLines(text)| ==> Blank(SplitLines(text)[k]) {
      SplitAllBlank(text);
    }
  }

  // ---------------------------------------------------------------------------
  // _normalize_from_json
  // ---------------------------------------------------------------------------

  /** The keys whose list is read as the ACs, in priority order. */
  const LIST_KEYS: seq<string> := ["acceptance_criteria", "ac", "acs"]

  /** The values the entries of an `items` list give: the `ac_text` of a dictionary that has
      one, or the string itself; other entries give nothing. */
  function ItemValues(items: seq<Json>): (r: seq<Json>)
    ensures |r| <= |items|
  {
    if |items| == 0 then []
    else
      var it := items[0];
      (if it.JObj? && "ac_text" in it.fields then [it.fields["ac_text"]]
       else if it.JStr? then [it]
       else []) + ItemValues(items[1..])
  }

  /** The values a list of dictionaries gives: `ac_text`, otherwise `description`, otherwise
      nothing. */
  function DictValues(items: seq<Json>): (r: seq<Json>)
    ensures |r| <= |items|
  {
    if |items| == 0 then []
    else
      var it := items[0];
      (if it.JObj? && "ac_text" in it.fields then [it.fields["ac_text"]]
       else if it.JObj? && "description" in it.fields then [it.fields["description"]]
       else []) + DictValues(items[1..])
  }

  predicate AllStrings(xs: seq<Json>) {
    forall i :: 0 <= i < |xs| ==> xs[i].JStr?
  }

  predicate AllObjects(xs: seq<Json>) {
    forall i :: 0 <= i < |xs| ==> xs[i].JObj?
  }

  /** `_normalize_from_json` on a dictionary. */
  function NormalizeObject(o: Obj): (acs: seq<string>)
    ensures GoodAcs(acs)
  {
    var crit := Get(o, LIST_KEYS[0], JNull);
    var ac := Get(o, LIST_KEYS[1], JNull);
    var acs := Get(o, LIST_KEYS[2], JNull);
    var items := Get(o, "items", JNull);
    if crit.JArr? then RunMain.NonBlankTexts(crit.items, PyStr)
    else if ac.JArr? then RunMain.NonBlankTexts(ac.items, PyStr)
    else if acs.JArr? then RunMain.NonBlankTexts(acs.items, PyStr)
    else if items.JArr? then RunMain.NonBlankTexts(ItemValues(items.items), PyStr)
    else []
  }

  /** `_normalize_from_json(obj)`: every AC it gives is non-empty and stripped. */
  function NormalizeFromJson(v: Json): (acs: seq<string>)
    ensures GoodAcs(acs)
  {
    match v
    case JObj(o) => NormalizeObject(o)
    case JArr(xs) =>
      if AllStrings(xs) then RunMain.NonBlankTexts(xs, PyStr)
      else if AllObjects(xs) then RunMain.NonBlankTexts(DictValues(xs), PyStr)
      else []
    case _ => []
  }

  /** Key priority: once one of `acceptance_criteria`, `ac`, `acs` holds a list, no later key
      and no other key (`items` included) changes what a dictionary gives. */
  lemma NormalizeShadow(o: Obj, j: nat, k: string, v: Json)
    requires j < |LIST_KEYS| && Get(o, LIST_KEYS[j], JNull).JArr?
    requires k !in LIST_KEYS[..j + 1]
    ensures NormalizeObject(o[k := v]) == NormalizeObject(o)
  {
    assert LIST_KEYS[0] in LIST_KEYS[..j + 1];
    assert j >= 1 ==> LIST_KEYS[1] in LIST_KEYS[..j + 1];
    assert j >= 2 ==> LIST_KEYS[2] in LIST_KEYS[..j + 1];
    assert forall key :: key != k ==> Get(o[k := v], key, JNull) == Get(o, key, JNull);
  }

  /** The first list among the three keys is the only source: an AC is given exactly when it
      is the non-empty stripped form of an element of that list. */
  lemma NormalizeListKey(o: Obj, j: nat, t: string)
    requires j < |LIST_KEYS| && Get(o, LIST_KEYS[j], JNull).JArr?
    requires forall i :: 0 <= i < j ==> !Get(o, LIST_KEYS[i], JNull).JArr?
    ensures var xs := Get(o, LIST_KEYS[j], JNull).items;
      t in NormalizeObject(o) <==> |t| > 0 && exists i :: 0 <= i < |xs| && Strip(PyStr(xs[i])) == t
  {
    RunMain.NonBlankTextsMembers(Get(o, LIST_KEYS[j], JNull).items, PyStr, t);
  }

  /** A list that mixes strings with other values, or dictionaries with other values, gives
      no AC. */
  lemma MixedListGivesNothing(xs: seq<Json>, i: nat, j: nat)
    requires i < |xs| && j < |xs| && !xs[i].JStr? && !xs[j].JObj?
    ensures NormalizeFromJson(JArr(xs)) == []
  {
  }

  // ---------------------------------------------------------------------------
  // ingest_input
  // ---------------------------------------------------------------------------

  /** The `input_format` of the result. */
  datatype Format = EmptyInput | JsonInput | TextInput
  {
    function Name(): string {
      match this
      case EmptyInput => "empty"
      case JsonInput => "json"
      case TextInput => "text"
    }
  }

  datatype Ingested = Ingested(items: seq<Obj>, format: Format)

  /** `{"ac_index": i, "ac_text": text}`. */
  function AcItem(i: int, text: string): Obj {
    map["ac_index" := JInt(i), "ac_text" := JStr(text)]
  }

  /** The ACs numbered from 1. */
  function AcItems(acs: seq<string>): (items: seq<Obj>)
    ensures |items| == |acs|
  {
    seq(|acs|, i requires 0 <= i < |acs| => AcItem(i + 1, acs[i]))
  }

  /** The texts of AC items, in order; `""` for an item without a string `ac_text`. */
  function AcTexts(items: seq<Obj>): (r: seq<string>)
    ensures |r| == |items|
  {
    seq(|items|, i requires 0 <= i < |items| =>
      var v := Get(items[i], "ac_text", JNull); if v.JStr? then v.s else "")
  }

  /** Item `i` carries index `i + 1` and the `i`-th AC, and reading the texts back gives the
      ACs. */
  lemma AcItemsSpec(acs: seq<string>)
    ensures AcTexts(AcItems(acs)) == acs
    ensures forall i :: 0 <= i < |acs| ==>
      AcItems(acs)[i].Keys == {"ac_index", "ac_text"} && Get(AcItems(acs)[i], "ac_index", JNull) == JInt(i + 1)
  {
  }

  /** `ingest_input(raw_text)` with the JSON parser as a parameter (`None` where `json.loads`
      raises). */
  function IngestInput(raw: string, parse: string -> Option<Json>): (r: Ingested)
    ensures r.format == EmptyInput <==> Blank(raw)
    ensures r.format == JsonInput ==>
      parse(Strip(raw)).Some? && r.items == AcItems(NormalizeFromJson(parse(Strip(raw)).value))
    ensures r.format == TextInput ==>
      && (parse(Strip(raw)).None? || NormalizeFromJson(parse(Strip(raw)).value) == [])
      && r.items == AcItems(ExtractAcsFromText(Strip(raw)))
  {
    var t := Strip(raw);
    StripEmptyIffBlank(raw);
    if |t| == 0 then Ingested([], EmptyInput)
    else
      var obj := parse(t);
      var acs := if obj.Some? then NormalizeFromJson(obj.value) else [];
      if |acs| > 0 then Ingested(AcItems(acs), JsonInput)
      else Ingested(AcItems(ExtractAcsFromText(t)), TextInput)
  }

  /** Only blank input yields no AC, and every AC is non-empty and stripped, whichever way it
      was read. */
  lemma IngestNonEmpty(raw: string, parse: string -> Option<Json>)
    ensures var r := IngestInput(raw, parse);
      && (|r.items| == 0 <==> Blank(raw))
      && GoodAcs(AcTexts(r.items))
  {
    var t := Strip(raw);
    StripSpec(raw);
    var r := IngestInput(raw, parse);
    if !Blank(raw) {
      NonEmptyStrippedNotBlank(t);
      TextNonEmpty(t);
    }
    if r.format == JsonInput {
      AcItemsSpec(NormalizeFromJson(parse(t).value));
    } else if r.format == TextInput {
      AcItemsSpec(ExtractAcsFromText(t));
    }
  }
}
