/**
 * The `strip` text normaliser of the SSA builder's API test
 * (test/api-test.js).  It splits a text on `\r\n`, `\r` or `\n`, removes the
 * leading whitespace of every line, drops the lines that are then empty and
 * joins the remaining ones with `\n`, so that emitted and expected IR
 * listings compare equal whatever their indentation, blank lines and
 * line-ending style.
 *
 * The whitespace class of the regular expression `^\s*` is a parameter
 * `isWs` of every operation that involves it; every property below holds
 * for any such predicate.  `IsJsSpace` is the ECMAScript class itself.
 */
module Strip {

  // =====================================================================
  // Characters, lines and the shape of normalised text
  // =====================================================================

  /** A character that can start a line break. */
  predicate IsBreak(c: char) {
    c == '\r' || c == '\n'
  }

  /** A text holding no line-break character: what a split line looks like. */
  predicate BreakFree(s: string) {
    forall i :: 0 <= i < |s| ==> !IsBreak(s[i])
  }

  /** One of the three separators the split regular expression matches. */
  predicate IsLineBreak(b: string) {
    b == "\r\n" || b == "\r" || b == "\n"
  }

  /** A line made of whitespace only (the empty line included). */
  predicate AllWs(line: string, isWs: char -> bool) {
    forall i :: 0 <= i < |line| ==> isWs(line[i])
  }

  /** Lines that are all whitespace only. */
  predicate AllBlank(lines: seq<string>, isWs: char -> bool) {
    forall i :: 0 <= i < |lines| ==> AllWs(lines[i], isWs)
  }

  /** A text holding only whitespace and line-break characters. */
  predicate WsOrBreaks(s: string, isWs: char -> bool) {
    forall i :: 0 <= i < |s| ==> isWs(s[i]) || IsBreak(s[i])
  }

  /** A line as `strip` emits it: non-empty, without breaks, not indented. */
  predicate CleanLine(line: string, isWs: char -> bool) {
    line != [] && BreakFree(line) && !isWs(line[0])
  }

  /** A text without `\r`. */
  predicate NoCarriageReturn(r: string) {
    forall i :: 0 <= i < |r| ==> r[i] != '\r'
  }

  /**
   * No `\n`-separated piece of the text is empty: it neither starts nor
   * ends with `\n` and never holds two `\n` in a row.
   */
  predicate NoEmptyLine(r: string) {
    && (r != [] ==> r[0] != '\n' && r[|r| - 1] != '\n')
    && (forall i, j :: 0 <= i < |r| && j == i + 1 && j < |r| ==> !(r[i] == '\n' && r[j] == '\n'))
  }

  /** No `\n`-separated piece of the text starts with whitespace. */
  predicate NoIndent(r: string, isWs: char -> bool) {
    && (r != [] ==> !isWs(r[0]))
    && (forall i, j :: 0 <= i < |r| && j == i + 1 && j < |r| && r[i] == '\n' ==> !isWs(r[j]))
  }

  // =====================================================================
  // Splitting: source.split(/\r\n|\r|\n/g)
  // =====================================================================

  /**
   * Length of the separator that /\r\n|\r|\n/ matches at the start of `s`,
   * 0 when none does.  The alternatives are tried in order, so `\r\n` is
   * taken as one separator rather than `\r` followed by `\n`.
   */
  function BreakLen(s: string): (n: nat)
    ensures n <= |s|
    ensures n > 0 <==> (|s| > 0 && IsBreak(s[0]))
    ensures n > 0 ==> IsLineBreak(s[..n])
    ensures n == 1 && s[0] == '\r' ==> |s| == 1 || s[1] != '\n'
  {
    if |s| >= 2 && s[0] == '\r' && s[1] == '\n' then 2
    else if |s| >= 1 && IsBreak(s[0]) then 1
    else 0
  }

  /**
   * The pieces between separators, scanning left to right.  A text without
   * separators (the empty text included) is one piece; every piece is
   * break-free, and there is one more piece than separators.
   */
  function SplitLines(s: string): (lines: seq<string>)
    ensures |lines| >= 1
    ensures |lines| <= |s| + 1
    ensures forall i :: 0 <= i < |lines| ==> BreakFree(lines[i])
    decreases |s|
  {
    if s == [] then [""]
    else if BreakLen(s) > 0 then [""] + SplitLines(s[BreakLen(s)..])
    else
      var rest := SplitLines(s[1..]);
      [[s[0]] + rest[0]] + rest[1..]
  }

  /** The separators `SplitLines` consumed, in order. */
  ghost function LineBreaks(s: string): (breaks: seq<string>)
    ensures |breaks| == |SplitLines(s)| - 1
    ensures forall i :: 0 <= i < |breaks| ==> IsLineBreak(breaks[i])
    decreases |s|
  {
    if s == [] then []
    else if BreakLen(s) > 0 then [s[..BreakLen(s)]] + LineBreaks(s[BreakLen(s)..])
    else LineBreaks(s[1..])
  }

  /** A text laid out as `lines` separated by `breaks`, one break between two lines. */
  function Render(lines: seq<string>, breaks: seq<string>): string
    requires |lines| == |breaks| + 1
    decreases |breaks|
  {
    if breaks == [] then lines[0]
    else lines[0] + breaks[0] + Render(lines[1..], breaks[1..])
  }

  // =====================================================================
  // Trimming, filtering, joining
  // =====================================================================

  /**
   * Replacing the match of `^\s*` by nothing: the line from its first
   * non-whitespace character on.  What is removed is whitespace, what is
   * kept is an unchanged suffix (trailing whitespace included), and the
   * suffix does not start with whitespace.
   */
  function LTrim(line: string, isWs: char -> bool): (r: string)
    ensures |r| <= |line|
    ensures forall i, j :: 0 <= i < |r| && j == |line| - |r| + i ==> r[i] == line[j]
    ensures forall i :: 0 <= i < |line| - |r| ==> isWs(line[i])
    ensures r == [] || !isWs(r[0])
    decreases |line|
  {
    if line != [] && isWs(line[0]) then LTrim(line[1..], isWs) else line
  }

  /** `lines.map(...)` with the trimming callback: one trimmed line per line. */
  function TrimAll(lines: seq<string>, isWs: char -> bool): (r: seq<string>)
    ensures |r| == |lines|
    ensures forall i :: 0 <= i < |r| ==> r[i] == LTrim(lines[i], isWs)
    decreases |lines|
  {
    if lines == [] then []
    else
      var rest := TrimAll(lines[1..], isWs);
      assert forall i :: 0 < i < |lines| ==> rest[i - 1] == LTrim(lines[i], isWs) by {
        assert forall i :: 0 < i < |lines| ==> lines[1..][i - 1] == lines[i];
      }
      [LTrim(lines[0], isWs)] + rest
  }

  /** `.filter(line => !!line)`: the non-empty lines. */
  function DropEmpty(lines: seq<string>): (r: seq<string>)
    ensures |r| <= |lines|
    ensures forall i :: 0 <= i < |r| ==> r[i] != []
    decreases |lines|
  {
    if lines == [] then []
    else (if lines[0] == [] then [] else [lines[0]]) + DropEmpty(lines[1..])
  }

  /** `out.join('\n')`. */
  function Join(lines: seq<string>): string
    decreases |lines|
  {
    if lines == [] then ""
    else if |lines| == 1 then lines[0]
    else lines[0] + "\n" + Join(lines[1..])
  }

  /** The lines `strip` keeps of a split text: trimmed, then the empty ones dropped. */
  function Kept(lines: seq<string>, isWs: char -> bool): (r: seq<string>)
    ensures |r| <= |lines|
  {
    DropEmpty(TrimAll(lines, isWs))
  }

  /** `strip(source)`. */
  function Strip(source: string, isWs: char -> bool): string {
    Join(Kept(SplitLines(source), isWs))
  }

  /** The class `\s` of ECMAScript regular expressions: WhiteSpace and LineTerminator. */
  predicate IsJsSpace(c: char) {
    || c == '\t' || c == '\n' || c == '\U{B}' || c == '\U{C}' || c == '\r' || c == ' '
    || c == '\U{A0}' || c == '\U{1680}' || ('\U{2000}' <= c <= '\U{200A}')
    || c == '\U{2028}' || c == '\U{2029}' || c == '\U{202F}' || c == '\U{205F}'
    || c == '\U{3000}' || c == '\U{FEFF}'
  }

  /** `strip` with the whitespace class of the JavaScript engine. */
  function StripJs(source: string): string {
    Strip(source, IsJsSpace)
  }

  // =====================================================================
  // Laying out and splitting
  // =====================================================================

  /** Laying out a first line and its separator in front of the rest. */
  lemma RenderCons(line: string, b: string, lines: seq<string>, breaks: seq<string>)
    requires |lines| == |breaks| + 1
    ensures Render([line] + lines, [b] + breaks) == line + b + Render(lines, breaks)
  {
    assert ([line] + lines)[1..] == lines;
    assert ([b] + breaks)[1..] == breaks;
  }

  /** Extending the first line at its front extends the laid-out text at its front. */
  lemma RenderPrepend(c: string, lines: seq<string>, breaks: seq<string>)
    requires |lines| == |breaks| + 1
    ensures Render([c + lines[0]] + lines[1..], breaks) == c + Render(lines, breaks)
  {
    var longer := [c + lines[0]] + lines[1..];
    assert longer[1..] == lines[1..];
    if breaks != [] {
      assert Render(longer, breaks) == (c + lines[0]) + breaks[0] + Render(lines[1..], breaks[1..]);
    }
  }

  /** The first character of a laid-out text is that of its first line. */
  lemma RenderHead(lines: seq<string>, breaks: seq<string>)
    requires |lines| == |breaks| + 1 && lines[0] != []
    ensures Render(lines, breaks) != [] && Render(lines, breaks)[0] == lines[0][0]
  {
  }

  /** Splitting is undone by laying the pieces out again with the separators it consumed. */
  lemma {:induction false} SplitLinesInverse(s: string)
    ensures Render(SplitLines(s), LineBreaks(s)) == s
    decreases |s|
  {
    if s == [] {
    } else if BreakLen(s) > 0 {
      var n := BreakLen(s);
      SplitLinesInverse(s[n..]);
      RenderCons("", s[..n], SplitLines(s[n..]), LineBreaks(s[n..]));
      assert s == s[..n] + s[n..];
    } else {
      var rest := SplitLines(s[1..]);
      SplitLinesInverse(s[1..]);
      RenderPrepend([s[0]], rest, LineBreaks(s[1..]));
      assert s == [s[0]] + s[1..];
    }
  }

  /** A text without separators is a single piece. */
  lemma {:induction false} SplitBreakFree(x: string)
    requires BreakFree(x)
    ensures SplitLines(x) == [x]
    decreases |x|
  {
    if x != [] {
      SplitBreakFree(x[1..]);
      assert x == [x[0]] + x[1..];
    }
  }

  /** A break-free prefix followed by a separator splits off as the first piece. */
  lemma {:induction false} SplitAfterLine(x: string, t: string)
    requires BreakFree(x) && BreakLen(t) > 0
    ensures SplitLines(x + t) == [x] + SplitLines(t[BreakLen(t)..])
    decreases |x|
  {
    if x == [] {
      assert x + t == t;
    } else {
      var s := x + t;
      assert s[1..] == x[1..] + t;
      assert !IsBreak(s[0]);
      SplitAfterLine(x[1..], t);
      assert [x[0]] + x[1..] == x;
    }
  }

  /** `join('\n')` of break-free lines is split back into the same lines. */
  lemma {:induction false} SplitJoin(lines: seq<string>)
    requires |lines| >= 1
    requires forall i :: 0 <= i < |lines| ==> BreakFree(lines[i])
    ensures SplitLines(Join(lines)) == lines
    decreases |lines|
  {
    if |lines| == 1 {
      SplitBreakFree(lines[0]);
    } else {
      var t := "\n" + Join(lines[1..]);
      assert BreakLen(t) == 1 && t[1..] == Join(lines[1..]);
      assert Join(lines) == lines[0] + t;
      SplitAfterLine(lines[0], t);
      SplitJoin(lines[1..]);
      assert [lines[0]] + lines[1..] == lines;
    }
  }

  /**
   * A line, a separator and the rest of a text: the line splits off as the
   * first piece, unless a lone `\r` separator meets a `\n` at the start of
   * the rest and the two read as one `\r\n`.
   */
  lemma SplitLineBreak(x: string, b: string, t: string)
    requires BreakFree(x) && IsLineBreak(b)
    requires !(b == "\r" && t != [] && t[0] == '\n')
    ensures SplitLines(x + b + t) == [x] + SplitLines(t)
  {
    assert x + b + t == x + (b + t);
    assert BreakLen(b + t) == |b| && (b + t)[|b|..] == t;
    SplitAfterLine(x, b + t);
  }

  /** A laid-out text that starts with `\n` has an empty first line and a `\n` separator. */
  lemma RenderNewlineHead(lines: seq<string>, breaks: seq<string>)
    requires |lines| == |breaks| + 1
    requires BreakFree(lines[0])
    requires breaks != [] ==> IsLineBreak(breaks[0])
    requires Render(lines, breaks) != [] && Render(lines, breaks)[0] == '\n'
    ensures breaks != [] && lines[0] == [] && breaks[0] == "\n"
    ensures Render(lines, breaks) == "\n" + Render(lines[1..], breaks[1..])
  {
    if lines[0] != [] {
      RenderHead(lines, breaks);
    }
    assert Render(lines, breaks) == breaks[0] + Render(lines[1..], breaks[1..]);
  }

  /**
   * The first line of a laid-out text splits off as the first piece.  The
   * one exception is a `\r` separator, an empty line and a `\n` separator,
   * which merge into one `\r\n`: then the empty line is lost.
   */
  lemma SplitRenderCons(lines: seq<string>, breaks: seq<string>)
    requires |lines| == |breaks| + 1 && |breaks| >= 1
    requires forall i :: 0 <= i < |lines| ==> BreakFree(lines[i])
    requires forall i :: 0 <= i < |breaks| ==> IsLineBreak(breaks[i])
    ensures var s := SplitLines(Render(lines, breaks));
      if breaks[0] == "\r" && |breaks| >= 2 && lines[1] == [] && breaks[1] == "\n"
      then s == [lines[0]] + SplitLines(Render(lines[2..], breaks[2..]))
      else s == [lines[0]] + SplitLines(Render(lines[1..], breaks[1..]))
  {
    var x, b := lines[0], breaks[0];
    var t := Render(lines[1..], breaks[1..]);
    assert Render(lines, breaks) == x + b + t;
    assert |breaks| >= 2 && lines[1] == [] && breaks[1] == "\n" ==> t != [] && t[0] == '\n' by {
      if |breaks| >= 2 && lines[1] == [] && breaks[1] == "\n" {
        assert lines[1..][0] == lines[1] && breaks[1..][0] == breaks[1];
        assert t == lines[1] + breaks[1] + Render(lines[1..][1..], breaks[1..][1..]);
      }
    }
    if b == "\r" && t != [] && t[0] == '\n' {
      SplitRenderMerge(lines, breaks);
    } else {
      SplitLineBreak(x, b, t);
    }
  }

  /** The case of `SplitRenderCons` where `\r`, an empty line and `\n` read as one `\r\n`. */
  lemma SplitRenderMerge(lines: seq<string>, breaks: seq<string>)
    requires |lines| == |breaks| + 1 && |breaks| >= 1
    requires BreakFree(lines[0]) && BreakFree(lines[1])
    requires |breaks| >= 2 ==> IsLineBreak(breaks[1])
    requires var t := Render(lines[1..], breaks[1..]); breaks[0] == "\r" && t != [] && t[0] == '\n'
    ensures |breaks| >= 2 && lines[1] == [] && breaks[1] == "\n"
    ensures SplitLines(Render(lines, breaks)) == [lines[0]] + SplitLines(Render(lines[2..], breaks[2..]))
  {
    var x := lines[0];
    var t := Render(lines[1..], breaks[1..]);
    assert |breaks| >= 2 && lines[1] == [] && t == "\n" + Render(lines[2..], breaks[2..]) by {
      assert BreakFree(lines[1..][0]) && (breaks[1..] != [] ==> IsLineBreak(breaks[1..][0])) by {
        assert lines[1..][0] == lines[1];
        assert breaks[1..] != [] ==> breaks[1..][0] == breaks[1];
      }
      RenderNewlineHead(lines[1..], breaks[1..]);
      assert lines[1..][1..] == lines[2..] && breaks[1..][1..] == breaks[2..];
    }
    var u := Render(lines[2..], breaks[2..]);
    assert Render(lines, breaks) == x + "\r\n" + u by {
      assert Render(lines, breaks) == x + "\r" + t;
    }
    assert BreakFree(x);
    SplitLineBreak(x, "\r\n", u);
  }

  // =====================================================================
  // Trimming and filtering
  // =====================================================================

  /** A line is dropped exactly when it is whitespace only. */
  lemma BlankIff(line: string, isWs: char -> bool)
    ensures LTrim(line, isWs) == [] <==> AllWs(line, isWs)
  {
    var r := LTrim(line, isWs);
    if r != [] {
      assert r[0] == line[|line| - |r|];
    }
  }

  /** Trimming a break-free line leaves it break-free. */
  lemma LTrimBreakFree(line: string, isWs: char -> bool)
    requires BreakFree(line)
    ensures BreakFree(LTrim(line, isWs))
  {
    var r := LTrim(line, isWs);
    forall k | 0 <= k < |r| ensures !IsBreak(r[k]) {
      assert r[k] == line[|line| - |r| + k];
    }
  }

  /** Whitespace added in front of a line is removed with the rest of its indentation. */
  lemma {:induction false} LTrimPad(pad: string, line: string, isWs: char -> bool)
    requires AllWs(pad, isWs)
    ensures LTrim(pad + line, isWs) == LTrim(line, isWs)
    decreases |pad|
  {
    if pad != [] {
      assert (pad + line)[0] == pad[0];
      assert (pad + line)[1..] == pad[1..] + line;
      LTrimPad(pad[1..], line, isWs);
    } else {
      assert pad + line == line;
    }
  }

  /** Trimming line by line distributes over consecutive parts of a text. */
  lemma {:induction false} TrimAllAppend(a: seq<string>, b: seq<string>, isWs: char -> bool)
    ensures TrimAll(a + b, isWs) == TrimAll(a, isWs) + TrimAll(b, isWs)
    decreases |a|
  {
    if a != [] {
      assert (a + b)[1..] == a[1..] + b;
      TrimAllAppend(a[1..], b, isWs);
    } else {
      assert a + b == b;
    }
  }

  /** Filtering distributes over consecutive parts of a text, order kept. */
  lemma {:induction false} DropEmptyAppend(a: seq<string>, b: seq<string>)
    ensures DropEmpty(a + b) == DropEmpty(a) + DropEmpty(b)
    decreases |a|
  {
    if a != [] {
      assert (a + b)[1..] == a[1..] + b;
      DropEmptyAppend(a[1..], b);
    } else {
      assert a + b == b;
    }
  }

  /** The filter keeps every non-empty line and invents none. */
  lemma {:induction false} DropEmptyMembers(lines: seq<string>)
    ensures forall i :: 0 <= i < |DropEmpty(lines)| ==> DropEmpty(lines)[i] in lines
    ensures forall i :: 0 <= i < |lines| && lines[i] != [] ==> lines[i] in DropEmpty(lines)
    decreases |lines|
  {
    if lines != [] {
      DropEmptyMembers(lines[1..]);
      assert lines == [lines[0]] + lines[1..];
      var r := DropEmpty(lines);
      var rest := DropEmpty(lines[1..]);
      assert forall x :: x in rest ==> x in r;
      assert forall x :: x in lines[1..] ==> x in lines;
    }
  }

  /**
   * The kept lines of consecutive parts of a text are the kept lines of each
   * part, in the same order.
   */
  lemma KeptAppend(a: seq<string>, b: seq<string>, isWs: char -> bool)
    ensures Kept(a + b, isWs) == Kept(a, isWs) + Kept(b, isWs)
  {
    TrimAllAppend(a, b, isWs);
    DropEmptyAppend(TrimAll(a, isWs), TrimAll(b, isWs));
  }

  /** One line on its own: dropped if it is whitespace only, otherwise kept minus its indentation. */
  lemma KeptSingle(line: string, isWs: char -> bool)
    ensures Kept([line], isWs) == if AllWs(line, isWs) then [] else [LTrim(line, isWs)]
  {
    BlankIff(line, isWs);
    assert TrimAll([line], isWs) == [LTrim(line, isWs)];
    assert DropEmpty([LTrim(line, isWs)])
        == (if LTrim(line, isWs) == [] then [] else [LTrim(line, isWs)]) + DropEmpty([]);
  }

  /**
   * The kept lines, one input line at a time: a blank line vanishes, any
   * other line survives trimmed, in its place.
   */
  lemma KeptSplice(before: seq<string>, line: string, after: seq<string>, isWs: char -> bool)
    ensures Kept(before + [line] + after, isWs)
         == Kept(before, isWs) + (if AllWs(line, isWs) then [] else [LTrim(line, isWs)]) + Kept(after, isWs)
  {
    KeptAppend(before + [line], after, isWs);
    KeptAppend(before, [line], isWs);
    KeptSingle(line, isWs);
  }

  /** The same first line in front of lines that keep the same content. */
  lemma KeptConsCongruent(x: string, a: seq<string>, b: seq<string>, isWs: char -> bool)
    requires Kept(a, isWs) == Kept(b, isWs)
    ensures Kept([x] + a, isWs) == Kept([x] + b, isWs)
  {
    KeptAppend([x], a, isWs);
    KeptAppend([x], b, isWs);
  }

  /** A blank first line contributes nothing. */
  lemma KeptBlankHead(y: string, b: seq<string>, isWs: char -> bool)
    requires AllWs(y, isWs)
    ensures Kept([y] + b, isWs) == Kept(b, isWs)
  {
    KeptAppend([y], b, isWs);
    KeptSingle(y, isWs);
  }

  /** Lines already in the form `strip` emits are kept as they are. */
  lemma {:induction false} KeptClean(lines: seq<string>, isWs: char -> bool)
    requires forall i :: 0 <= i < |lines| ==> CleanLine(lines[i], isWs)
    ensures Kept(lines, isWs) == lines
    decreases |lines|
  {
    if lines != [] {
      var x := lines[0];
      assert LTrim(x, isWs) == x;
      assert !AllWs(x, isWs) by { assert !isWs(x[0]); }
      KeptClean(lines[1..], isWs);
      KeptSingle(x, isWs);
      KeptAppend([x], lines[1..], isWs);
      assert [lines[0]] + lines[1..] == lines;
    }
  }

  /** Every kept line of break-free lines is in the form `strip` emits. */
  lemma KeptLinesClean(lines: seq<string>, isWs: char -> bool)
    requires forall i :: 0 <= i < |lines| ==> BreakFree(lines[i])
    ensures forall i :: 0 <= i < |Kept(lines, isWs)| ==> CleanLine(Kept(lines, isWs)[i], isWs)
  {
    var t := TrimAll(lines, isWs);
    var r := DropEmpty(t);
    DropEmptyMembers(t);
    forall i | 0 <= i < |r| ensures CleanLine(r[i], isWs) {
      var j :| 0 <= j < |t| && r[i] == t[j];
      LTrimBreakFree(lines[j], isWs);
    }
  }

  /** Nothing is kept exactly when every line is whitespace only. */
  lemma KeptEmptyIff(lines: seq<string>, isWs: char -> bool)
    ensures Kept(lines, isWs) == [] <==> AllBlank(lines, isWs)
  {
    var t := TrimAll(lines, isWs);
    forall i | 0 <= i < |lines|
      ensures t[i] == [] <==> AllWs(lines[i], isWs)
    {
      BlankIff(lines[i], isWs);
    }
    DropEmptyMembers(t);
    if Kept(lines, isWs) != [] {
      var r := Kept(lines, isWs);
      assert r[0] in t;
    }
  }

  /** Removing indentation, line by line, does not change what is kept. */
  lemma IndentInsensitive(lines: seq<string>, pads: seq<string>, indented: seq<string>, isWs: char -> bool)
    requires |pads| == |lines| == |indented|
    requires forall i :: 0 <= i < |pads| ==> AllWs(pads[i], isWs) && indented[i] == pads[i] + lines[i]
    ensures Kept(indented, isWs) == Kept(lines, isWs)
  {
    forall i | 0 <= i < |lines|
      ensures TrimAll(indented, isWs)[i] == TrimAll(lines, isWs)[i]
    {
      LTrimPad(pads[i], lines[i], isWs);
    }
    assert TrimAll(indented, isWs) == TrimAll(lines, isWs);
  }

  /** Inserting a whitespace-only line anywhere does not change what is kept. */
  lemma BlankLineInsensitive(before: seq<string>, blank: string, after: seq<string>, isWs: char -> bool)
    requires AllWs(blank, isWs)
    ensures Kept(before + [blank] + after, isWs) == Kept(before + after, isWs)
  {
    KeptSplice(before, blank, after, isWs);
    KeptAppend(before, after, isWs);
  }

  // =====================================================================
  // Joining and blank texts
  // =====================================================================

  /**
   * Joining lines already in emitted form gives a non-empty text with no
   * `\r`, no empty line and no line starting with whitespace.
   */
  lemma {:induction false} JoinClean(lines: seq<string>, isWs: char -> bool)
    requires |lines| >= 1
    requires forall i :: 0 <= i < |lines| ==> CleanLine(lines[i], isWs)
    ensures Join(lines) != []
    ensures NoCarriageReturn(Join(lines))
    ensures NoEmptyLine(Join(lines))
    ensures NoIndent(Join(lines), isWs)
    decreases |lines|
  {
    var x := lines[0];
    assert !IsBreak(x[|x| - 1]);
    if |lines| > 1 {
      var j := Join(lines[1..]);
      JoinClean(lines[1..], isWs);
      assert CleanLine(lines[1..][0], isWs);
      var r := Join(lines);
      assert r == x + "\n" + j;
      assert |r| == |x| + 1 + |j|;
      assert forall i :: 0 <= i < |x| ==> r[i] == x[i] && !IsBreak(x[i]);
      assert r[|x|] == '\n';
      assert forall i :: |x| < i < |r| ==> r[i] == j[i - |x| - 1];
      forall i, k | 0 <= i && k == i + 1 && k < |r|
        ensures !(r[i] == '\n' && r[k] == '\n')
      {
        if i > |x| { assert r[i] == j[i - |x| - 1] && r[k] == j[i - |x|]; }
      }
      forall i, k | 0 <= i && k == i + 1 && k < |r| && r[i] == '\n'
        ensures !isWs(r[k])
      {
        if i > |x| { assert r[i] == j[i - |x| - 1] && r[k] == j[i - |x|]; }
      }
    }
  }

  /** A line is whitespace only when its first character and the rest are. */
  lemma AllWsCons(c: char, line: string, isWs: char -> bool)
    ensures AllWs([c] + line, isWs) <==> isWs(c) && AllWs(line, isWs)
  {
    assert ([c] + line)[0] == c;
    assert forall i :: 0 <= i < |line| ==> ([c] + line)[i + 1] == line[i];
  }

  /** Lines are all blank when the first one and the rest are. */
  lemma AllBlankCons(line: string, lines: seq<string>, isWs: char -> bool)
    ensures AllBlank([line] + lines, isWs) <==> AllWs(line, isWs) && AllBlank(lines, isWs)
  {
    assert ([line] + lines)[0] == line;
    assert forall i :: 0 <= i < |lines| ==> ([line] + lines)[i + 1] == lines[i];
  }

  /** A text holds only whitespace and breaks when both halves of any cut do. */
  lemma WsOrBreaksSplit(s: string, n: nat, isWs: char -> bool)
    requires n <= |s|
    ensures WsOrBreaks(s, isWs) <==> WsOrBreaks(s[..n], isWs) && WsOrBreaks(s[n..], isWs)
  {
    assert forall i :: 0 <= i < n ==> s[..n][i] == s[i];
    assert forall i :: 0 <= i < |s| - n ==> s[n..][i] == s[n + i];
  }

  /** A text splits into whitespace-only pieces exactly when it holds only whitespace and breaks. */
  lemma {:induction false} PiecesBlank(s: string, isWs: char -> bool)
    ensures AllBlank(SplitLines(s), isWs) <==> WsOrBreaks(s, isWs)
    decreases |s|
  {
    if s == [] {
    } else if BreakLen(s) > 0 {
      var n := BreakLen(s);
      PiecesBlank(s[n..], isWs);
      AllBlankCons("", SplitLines(s[n..]), isWs);
      WsOrBreaksSplit(s, n, isWs);
      assert WsOrBreaks(s[..n], isWs) by {
        assert IsLineBreak(s[..n]);
      }
    } else {
      var rest := SplitLines(s[1..]);
      PiecesBlank(s[1..], isWs);
      AllBlankCons([s[0]] + rest[0], rest[1..], isWs);
      AllBlankCons(rest[0], rest[1..], isWs);
      assert rest == [rest[0]] + rest[1..];
      AllWsCons(s[0], rest[0], isWs);
      WsOrBreaksSplit(s, 1, isWs);
      assert WsOrBreaks(s[..1], isWs) <==> isWs(s[0]) by {
        assert s[..1][0] == s[0];
      }
    }
  }

  // =====================================================================
  // Properties of strip
  // =====================================================================

  /**
   * The output holds no `\r` and no empty line, and no line of it starts
   * with whitespace.
   */
  lemma StripShape(source: string, isWs: char -> bool)
    ensures NoCarriageReturn(Strip(source, isWs))
    ensures NoEmptyLine(Strip(source, isWs))
    ensures NoIndent(Strip(source, isWs), isWs)
  {
    var k := Kept(SplitLines(source), isWs);
    if k != [] {
      KeptLinesClean(SplitLines(source), isWs);
      JoinClean(k, isWs);
    }
  }

  /**
   * The lines of a non-empty output are exactly the kept input lines, each
   * non-empty, break-free and unindented, and there are no more of them
   * than the input has lines.
   */
  lemma StripLines(source: string, isWs: char -> bool)
    ensures var r := Strip(source, isWs);
      && (r != [] ==> SplitLines(r) == Kept(SplitLines(source), isWs))
      && (r != [] ==> forall i :: 0 <= i < |SplitLines(r)| ==> CleanLine(SplitLines(r)[i], isWs))
      && |SplitLines(r)| <= |SplitLines(source)|
  {
    var k := Kept(SplitLines(source), isWs);
    KeptLinesClean(SplitLines(source), isWs);
    if k != [] {
      SplitJoin(k);
    }
  }

  /** The output is empty exactly when the input holds nothing but whitespace and line breaks. */
  lemma StripEmptyIff(source: string, isWs: char -> bool)
    ensures Strip(source, isWs) == [] <==> WsOrBreaks(source, isWs)
  {
    var pieces := SplitLines(source);
    var k := Kept(pieces, isWs);
    if k != [] {
      KeptLinesClean(pieces, isWs);
      JoinClean(k, isWs);
    }
    KeptEmptyIff(pieces, isWs);
    PiecesBlank(source, isWs);
  }

  /** Normalising a normalised text changes nothing. */
  lemma StripIdempotent(source: string, isWs: char -> bool)
    ensures Strip(Strip(source, isWs), isWs) == Strip(source, isWs)
  {
    var k := Kept(SplitLines(source), isWs);
    if k == [] {
      assert Kept([""], isWs) == [];
    } else {
      KeptLinesClean(SplitLines(source), isWs);
      SplitJoin(k);
      KeptClean(k, isWs);
    }
  }

  /**
   * However a text is laid out with `\r\n`, `\r` and `\n` separators, its
   * split keeps the same lines as the layout: a lone `\r`, an empty line and
   * a `\n` read as one `\r\n`, and the empty line that vanishes would have
   * been dropped anyway.
   */
  lemma {:induction false} KeptSplitRender(lines: seq<string>, breaks: seq<string>, isWs: char -> bool)
    requires |lines| == |breaks| + 1
    requires forall i :: 0 <= i < |lines| ==> BreakFree(lines[i])
    requires forall i :: 0 <= i < |breaks| ==> IsLineBreak(breaks[i])
    ensures Kept(SplitLines(Render(lines, breaks)), isWs) == Kept(lines, isWs)
    decreases |breaks|, 1
  {
    if breaks == [] {
      SplitBreakFree(lines[0]);
      assert lines == [lines[0]];
    } else if breaks[0] == "\r" && |breaks| >= 2 && lines[1] == [] && breaks[1] == "\n" {
      KeptSplitRenderMerged(lines, breaks, isWs);
    } else {
      var x := lines[0];
      var plain := SplitLines(Render(lines[1..], breaks[1..]));
      assert SplitLines(Render(lines, breaks)) == [x] + plain by {
        SplitRenderCons(lines, breaks);
      }
      assert Kept(plain, isWs) == Kept(lines[1..], isWs) by {
        KeptSplitRender(lines[1..], breaks[1..], isWs);
      }
      KeptHeadStep(lines, SplitLines(Render(lines, breaks)), plain, isWs);
    }
  }

  /** The case of `KeptSplitRender` where `\r`, an empty line and `\n` read as one `\r\n`. */
  lemma {:induction false} KeptSplitRenderMerged(lines: seq<string>, breaks: seq<string>, isWs: char -> bool)
    requires |lines| == |breaks| + 1 && |breaks| >= 2
    requires forall i :: 0 <= i < |lines| ==> BreakFree(lines[i])
    requires forall i :: 0 <= i < |breaks| ==> IsLineBreak(breaks[i])
    requires breaks[0] == "\r" && lines[1] == [] && breaks[1] == "\n"
    ensures Kept(SplitLines(Render(lines, breaks)), isWs) == Kept(lines, isWs)
    decreases |breaks|, 0
  {
    var x := lines[0];
    var merged := SplitLines(Render(lines[2..], breaks[2..]));
    assert SplitLines(Render(lines, breaks)) == [x] + merged by {
      SplitRenderCons(lines, breaks);
    }
    assert Kept(merged, isWs) == Kept(lines[1..], isWs) by {
      KeptSplitRender(lines[2..], breaks[2..], isWs);
      assert lines[1..] == [lines[1]] + lines[2..];
      KeptBlankHead(lines[1], lines[2..], isWs);
    }
    KeptHeadStep(lines, SplitLines(Render(lines, breaks)), merged, isWs);
  }

  /** A split that starts with the first line, followed by lines keeping what the rest keeps. */
  lemma KeptHeadStep(lines: seq<string>, split: seq<string>, tail: seq<string>, isWs: char -> bool)
    requires lines != [] && split == [lines[0]] + tail
    requires Kept(tail, isWs) == Kept(lines[1..], isWs)
    ensures Kept(split, isWs) == Kept(lines, isWs)
  {
    KeptConsCongruent(lines[0], tail, lines[1..], isWs);
    assert lines == [lines[0]] + lines[1..];
  }

  /** A text laid out from `lines` strips to the kept lines joined by `\n`. */
  lemma StripRender(lines: seq<string>, breaks: seq<string>, isWs: char -> bool)
    requires |lines| == |breaks| + 1
    requires forall i :: 0 <= i < |lines| ==> BreakFree(lines[i])
    requires forall i :: 0 <= i < |breaks| ==> IsLineBreak(breaks[i])
    ensures Strip(Render(lines, breaks), isWs) == Join(Kept(lines, isWs))
  {
    KeptSplitRender(lines, breaks, isWs);
  }

  /**
   * Two texts whose lines keep the same content strip to the same string,
   * whatever their line-ending style.  With `IndentInsensitive` and
   * `BlankLineInsensitive`, lines that differ only in indentation or in
   * interspersed blank lines keep the same content.
   */
  lemma LayoutInsensitive(lines1: seq<string>, breaks1: seq<string>,
                          lines2: seq<string>, breaks2: seq<string>, isWs: char -> bool)
    requires |lines1| == |breaks1| + 1 && |lines2| == |breaks2| + 1
    requires forall i :: 0 <= i < |lines1| ==> BreakFree(lines1[i])
    requires forall i :: 0 <= i < |lines2| ==> BreakFree(lines2[i])
    requires forall i :: 0 <= i < |breaks1| ==> IsLineBreak(breaks1[i])
    requires forall i :: 0 <= i < |breaks2| ==> IsLineBreak(breaks2[i])
    requires Kept(lines1, isWs) == Kept(lines2, isWs)
    ensures Strip(Render(lines1, breaks1), isWs) == Strip(Render(lines2, breaks2), isWs)
  {
    StripRender(lines1, breaks1, isWs);
    StripRender(lines2, breaks2, isWs);
  }

  /** A line-break-free text concatenated from break-free parts. */
  lemma BreakFreeConcat(a: string, b: string)
    requires BreakFree(a) && BreakFree(b)
    ensures BreakFree(a + b)
  {
    assert forall i :: |a| <= i < |a + b| ==> (a + b)[i] == b[i - |a|];
  }

  /**
   * A text whose lines are indented with whitespace strips to the same
   * string as the text without the indentation, whatever line-ending style
   * either uses.
   */
  lemma StripIndentInsensitive(lines: seq<string>, pads: seq<string>, indented: seq<string>,
                               breaks1: seq<string>, breaks2: seq<string>, isWs: char -> bool)
    requires |pads| == |lines| == |indented| == |breaks1| + 1 == |breaks2| + 1
    requires forall i :: 0 <= i < |lines| ==> BreakFree(lines[i])
    requires forall i :: 0 <= i < |pads| ==> BreakFree(pads[i]) && AllWs(pads[i], isWs)
    requires forall i :: 0 <= i < |indented| ==> indented[i] == pads[i] + lines[i]
    requires forall i :: 0 <= i < |breaks1| ==> IsLineBreak(breaks1[i])
    requires forall i :: 0 <= i < |breaks2| ==> IsLineBreak(breaks2[i])
    ensures Strip(Render(indented, breaks1), isWs) == Strip(Render(lines, breaks2), isWs)
  {
    forall i | 0 <= i < |indented| ensures BreakFree(indented[i]) {
      BreakFreeConcat(pads[i], lines[i]);
    }
    IndentInsensitive(lines, pads, indented, isWs);
    LayoutInsensitive(indented, breaks1, lines, breaks2, isWs);
  }

  /**
   * A text with a whitespace-only line inserted strips to the same string
   * as the text without it, whatever line-ending style either uses.
   */
  lemma {:induction false} StripBlankLineInsensitive(before: seq<string>, blank: string, after: seq<string>,
                                  breaks1: seq<string>, breaks2: seq<string>, isWs: char -> bool)
    requires |before| + |after| == |breaks1| == |breaks2| + 1
    requires forall i :: 0 <= i < |before| ==> BreakFree(before[i])
    requires forall i :: 0 <= i < |after| ==> BreakFree(after[i])
    requires BreakFree(blank) && AllWs(blank, isWs)
    requires forall i :: 0 <= i < |breaks1| ==> IsLineBreak(breaks1[i])
    requires forall i :: 0 <= i < |breaks2| ==> IsLineBreak(breaks2[i])
    ensures Strip(Render(before + [blank] + after, breaks1), isWs) == Strip(Render(before + after, breaks2), isWs)
  {
    AllBreakFreeAppend(before, [blank]);
    AllBreakFreeAppend(before + [blank], after);
    AllBreakFreeAppend(before, after);
    BlankLineInsensitive(before, blank, after, isWs);
    LayoutInsensitive(before + [blank] + after, breaks1, before + after, breaks2, isWs);
  }

  /** Break-free lines followed by break-free lines. */
  lemma AllBreakFreeAppend(a: seq<string>, b: seq<string>)
    requires forall i :: 0 <= i < |a| ==> BreakFree(a[i])
    requires forall i :: 0 <= i < |b| ==> BreakFree(b[i])
    ensures forall i :: 0 <= i < |a + b| ==> BreakFree((a + b)[i])
  {
    assert forall i :: |a| <= i < |a + b| ==> (a + b)[i] == b[i - |a|];
  }

  /**
   * With the ECMAScript class, which contains `\r` and `\n`, the output is
   * empty exactly when every character of the input is whitespace.
   */
  lemma StripJsEmptyIff(source: string)
    ensures StripJs(source) == [] <==> forall i :: 0 <= i < |source| ==> IsJsSpace(source[i])
  {
    StripEmptyIff(source, IsJsSpace);
    assert forall i :: 0 <= i < |source| ==> (IsJsSpace(source[i]) || IsBreak(source[i]) <==> IsJsSpace(source[i]));
  }
}
