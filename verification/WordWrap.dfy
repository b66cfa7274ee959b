/**
 Wrapping a recovery-script command: NUL characters mark the places where a
 line may be broken.
 */
module WordWrap {
  import opened Options

  const NUL := '\0'

  // ---------------------------------------------------------------- where to break

  /** The prefix of length `k` can be a line: NUL follows, and no newline is in it. */
  predicate Breakable(cmd: string, k: nat) {
    k < |cmd| && cmd[k] == NUL && '\n' !in cmd[..k]
  }

  /** The longest match of the pattern `^(.{,limit})\0`: the greatest breakable
      length not above the limit. */
  function LongestBreak(cmd: string, limit: nat): Option<nat> {
    if Breakable(cmd, limit) then Some(limit)
    else if limit == 0 then None
    else LongestBreak(cmd, limit - 1)
  }

  lemma {:induction false} LongestBreakMeaning(cmd: string, limit: nat)
    ensures LongestBreak(cmd, limit).Some? ==>
              var k := LongestBreak(cmd, limit).value;
              k <= limit && Breakable(cmd, k) && forall j :: k < j <= limit ==> !Breakable(cmd, j)
    ensures LongestBreak(cmd, limit).None? ==> forall j :: 0 <= j <= limit ==> !Breakable(cmd, j)
  {
    if !Breakable(cmd, limit) && limit > 0 { LongestBreakMeaning(cmd, limit - 1); }
  }

  /** Position of the first NUL, or the length of the string. */
  function FirstNul(cmd: string): (k: nat)
    ensures k <= |cmd| && NUL !in cmd[..k] && (k < |cmd| ==> cmd[k] == NUL)
  {
    if |cmd| == 0 || cmd[0] == NUL then 0
    else
      var k := FirstNul(cmd[1..]);
      assert cmd[..k + 1] == [cmd[0]] + cmd[1..][..k];
      k + 1
  }

  /** The text of the next line, still with its NULs. */
  function NextLine(cmd: string, limit: nat): string {
    var m := LongestBreak(cmd, limit);
    if m.Some? && m.value <= |cmd| then cmd[..m.value] else cmd[..FirstNul(cmd)]
  }

  function Lines(cmd: string, limit: nat): (ls: seq<string>)
    ensures |ls| > 0
    decreases |cmd|
  {
    var l := NextLine(cmd, limit);
    NextLineShape(cmd, limit);
    if |l| == |cmd| then [l] else [l] + Lines(cmd[|l| + 1..], limit)
  }

  lemma NextLineShape(cmd: string, limit: nat)
    ensures var l := NextLine(cmd, limit);
            && |l| <= |cmd| && l == cmd[..|l|]
            && (|l| < |cmd| ==> cmd[|l|] == NUL)
            && (NUL in l ==> |l| <= limit)
            && (|l| == |cmd| ==> NUL !in cmd)
  {
    LongestBreakMeaning(cmd, limit);
    if LongestBreak(cmd, limit).None? {
      assert cmd[..|cmd|] == cmd;
    }
  }

  // ---------------------------------------------------------------- the loop

  function Join(ls: seq<string>, sep: string): string {
    if |ls| == 0 then "" else if |ls| == 1 then ls[0] else ls[0] + sep + Join(ls[1..], sep)
  }

  function Spaces(n: nat): string { seq(n, _ => ' ') }

  function Blanked(s: string): (r: string)
    ensures |r| == |s|
  {
    seq(|s|, i requires 0 <= i < |s| => if s[i] == NUL then ' ' else s[i])
  }

  function Stripped(s: string): string {
    if |s| > 0 && s[|s| - 1] == '\n' then Stripped(s[..|s| - 1]) else s
  }

  /** The list of strings the loop collects: every line ended by a newline, and
      every line but the first preceded by the indentation. */
  function Chunks(ls: seq<string>, indent: nat): seq<string> {
    if |ls| == 0 then []
    else
      var n := |ls| - 1;
      Chunks(ls[..n], indent) + (if n == 0 then [] else [Spaces(indent)]) + [ls[n] + "\n"]
  }

  function Concat(parts: seq<string>): string {
    if |parts| == 0 then "" else Concat(parts[..|parts| - 1]) + parts[|parts| - 1]
  }

  /** The specification of the result: all lines, blanks for NULs, and no
      newline at the end. */
  function WrappedCommand(cmd: string, limit: nat, indent: nat): string {
    Stripped(Blanked(Concat(Chunks(Lines(cmd, limit), indent))))
  }

  /** `_WordWrap` for a command with its first opening parenthesis at `paren`. */
  method Wrap(cmd: string, paren: nat, lineLen: nat) returns (result: string)
    requires paren < |cmd| && cmd[paren] == '(' && '(' !in cmd[..paren]
    requires paren + 1 <= lineLen
    ensures result == WrappedCommand(cmd, lineLen - (paren + 1), paren + 1)
    ensures '\n' !in cmd ==>
              FittingLines(Lines(cmd, lineLen - (paren + 1)), lineLen, paren + 1, SplitLines(result))
  {
    var indent := paren + 1;
    var out := CollectLines(cmd, lineLen - indent, indent);
    result := Stripped(Blanked(Concat(out)));
    if '\n' !in cmd {
      WrappedLinesFit(cmd, lineLen, indent, Lines(cmd, lineLen - indent), result);
    }
  }

  /** The loop, which consumes the command and collects strings. */
  method CollectLines(cmd: string, limit: nat, indent: nat) returns (out: seq<string>)
    ensures out == Chunks(Lines(cmd, limit), indent)
  {
    out := [];
    var first := true;
    var rest := cmd;
    ghost var goal := Lines(cmd, limit);
    ghost var done: seq<string> := [];
    while true
      invariant goal == done + Lines(rest, limit)
      invariant out == Chunks(done, indent) && (first <==> |done| == 0)
      decreases |rest|
    {
      if !first {
        out := out + [Spaces(indent)];
      }
      first := false;
      var line := TakeLine(rest, limit);
      out := out + [line + "\n"];
      ChunksSnoc(done, line, indent);
      LinesStep(done, rest, limit);
      done := done + [line];
      if |line| == |rest| {
        break;
      }
      rest := rest[|line| + 1..];
    }
  }

  lemma ChunksSnoc(ls: seq<string>, l: string, indent: nat)
    ensures Chunks(ls + [l], indent)
         == Chunks(ls, indent) + (if |ls| == 0 then [] else [Spaces(indent)]) + [l + "\n"]
  {
    assert (ls + [l])[..|ls|] == ls;
  }

  lemma LinesStep(done: seq<string>, rest: string, limit: nat)
    ensures var l := NextLine(rest, limit);
            && |l| <= |rest|
            && (|l| == |rest| ==> done + Lines(rest, limit) == done + [l])
            && (|l| < |rest| ==> done + Lines(rest, limit) == done + [l] + Lines(rest[|l| + 1..], limit))
  {
    NextLineShape(rest, limit);
    var l := NextLine(rest, limit);
    if |l| < |rest| {
      Regroup(done, l, Lines(rest[|l| + 1..], limit));
    }
  }

  lemma Regroup(done: seq<string>, l: string, tail: seq<string>)
    ensures done + ([l] + tail) == done + [l] + tail
  {
  }

  /** The pattern search and, when it fails, the split at the first NUL. */
  method TakeLine(rest: string, limit: nat) returns (line: string)
    ensures line == NextLine(rest, limit)
    ensures |line| <= |rest|
  {
    var m := LongestBreak(rest, limit);
    LongestBreakMeaning(rest, limit);
    if m.None? {
      line := rest[..FirstNul(rest)];
    } else {
      line := rest[..m.value];
    }
  }

  // ---------------------------------------------------------------- what wrapping preserves

  /** Putting the NULs back between the lines gives the command: every piece is
      there, in order, and broken only at NULs. */
  lemma {:induction false} LinesRejoin(cmd: string, limit: nat)
    ensures Join(Lines(cmd, limit), [NUL]) == cmd
    decreases |cmd|
  {
    var l := NextLine(cmd, limit);
    NextLineShape(cmd, limit);
    if |l| < |cmd| {
      var rest := cmd[|l| + 1..];
      LinesRejoin(rest, limit);
      var ls := Lines(cmd, limit);
      assert ls[1..] == Lines(rest, limit);
      assert cmd == l + [NUL] + rest;
    }
  }

  /** A line that holds more than one piece fits the limit, and the last line
      holds a single piece. */
  lemma {:induction false} LinesFit(cmd: string, limit: nat)
    ensures forall i :: 0 <= i < |Lines(cmd, limit)| && NUL in Lines(cmd, limit)[i] ==> |Lines(cmd, limit)[i]| <= limit
    ensures var ls := Lines(cmd, limit); NUL !in ls[|ls| - 1]
    decreases |cmd|
  {
    var l := NextLine(cmd, limit);
    NextLineShape(cmd, limit);
    if |l| < |cmd| {
      var rest := cmd[|l| + 1..];
      LinesFit(rest, limit);
      var ls, tail := Lines(cmd, limit), Lines(rest, limit);
      assert ls == [l] + tail;
      assert ls[|ls| - 1] == tail[|tail| - 1];
    }
  }

  /** A line is broken early only when the next piece, with its NUL, would not fit. */
  lemma BreaksAreForced(cmd: string, limit: nat)
    requires '\n' !in cmd && |NextLine(cmd, limit)| < |cmd|
    ensures var l := NextLine(cmd, limit);
            var rest := cmd[|l| + 1..];
            FirstNul(rest) < |rest| ==> |l| + 1 + FirstNul(rest) > limit
  {
    var l := NextLine(cmd, limit);
    NextLineShape(cmd, limit);
    LongestBreakMeaning(cmd, limit);
    var rest := cmd[|l| + 1..];
    var k := |l| + 1 + FirstNul(rest);
    if FirstNul(rest) < |rest| {
      assert cmd[k] == NUL && Breakable(cmd, k);
      if LongestBreak(cmd, limit).None? {
        assert Breakable(cmd, |l|);
      }
    }
  }

  /** The collected strings are the lines joined by a newline and the indentation. */
  lemma {:induction false} ChunksAreJoined(ls: seq<string>, indent: nat)
    requires |ls| > 0
    ensures Concat(Chunks(ls, indent)) == Join(ls, "\n" + Spaces(indent)) + "\n"
  {
    var n := |ls| - 1;
    var sep := "\n" + Spaces(indent);
    if n == 0 {
      assert Chunks(ls[..0], indent) == [];
      assert Chunks(ls, indent) == [ls[0] + "\n"];
      assert Concat([ls[0] + "\n"][..0]) == "";
    } else {
      var front := ls[..n];
      ChunksAreJoined(front, indent);
      JoinSnoc(front, ls[n], sep);
      assert ls == front + [ls[n]];
      ConcatTwo(Chunks(front, indent), Spaces(indent), ls[n] + "\n");
      NextPiece(Join(front, sep), "\n", Spaces(indent), ls[n]);
    }
  }

  lemma NextPiece(j: string, end: string, pad: string, l: string)
    ensures j + end + pad + (l + end) == j + (end + pad) + l + end
  {
  }

  lemma ConcatTwo(parts: seq<string>, a: string, b: string)
    ensures Concat(parts + [a] + [b]) == Concat(parts) + a + b
  {
    assert (parts + [a] + [b])[..|parts| + 1] == parts + [a];
    assert (parts + [a])[..|parts|] == parts;
  }

  lemma {:induction false} JoinSnoc(ls: seq<string>, l: string, sep: string)
    requires |ls| > 0
    ensures Join(ls + [l], sep) == Join(ls, sep) + sep + l
  {
    if |ls| > 1 {
      JoinSnoc(ls[1..], l, sep);
      assert (ls + [l])[1..] == ls[1..] + [l];
      assert ls[0] + sep + (Join(ls[1..], sep) + sep + l) == ls[0] + sep + Join(ls[1..], sep) + sep + l;
    } else {
      assert (ls + [l])[1..] == [l];
    }
  }

  lemma {:induction false} JoinEndsLike(ls: seq<string>, sep: string)
    requires |ls| > 0 && |sep| > 0
    ensures var j, l := Join(ls, sep), ls[|ls| - 1];
            && (|l| > 0 ==> |j| > 0 && j[|j| - 1] == l[|l| - 1])
            && (|l| == 0 && |ls| > 1 ==> |j| > 0 && j[|j| - 1] == sep[|sep| - 1])
  {
    if |ls| > 1 {
      var n := |ls| - 1;
      JoinSnoc(ls[..n], ls[n], sep);
      assert ls == ls[..n] + [ls[n]];
    }
  }

  /** The wrapped command: for a command that does not end in a newline, the
      lines with blanks for NULs, joined by a newline and the indentation. */
  lemma WrappedText(cmd: string, limit: nat, indent: nat)
    requires |cmd| > 0 && cmd[|cmd| - 1] != '\n' && indent > 0
    ensures var ls := Lines(cmd, limit);
            WrappedCommand(cmd, limit, indent) == Blanked(Join(ls, "\n" + Spaces(indent)))
  {
    var ls := Lines(cmd, limit);
    var j := Join(ls, "\n" + Spaces(indent));
    ChunksAreJoined(ls, indent);
    LastCharacter(cmd, limit, indent);
    assert Blanked(j + "\n") == Blanked(j) + "\n";
    StripOne(Blanked(j));
  }

  lemma StripOne(t: string)
    requires |t| > 0 && t[|t| - 1] != '\n'
    ensures Stripped(t + "\n") == t
  {
    assert (t + "\n")[..|t|] == t;
  }

  lemma LastCharacter(cmd: string, limit: nat, indent: nat)
    requires |cmd| > 0 && cmd[|cmd| - 1] != '\n' && indent > 0
    ensures var j := Join(Lines(cmd, limit), "\n" + Spaces(indent)); |j| > 0 && j[|j| - 1] != '\n'
  {
    var ls, sep := Lines(cmd, limit), "\n" + Spaces(indent);
    LinesRejoin(cmd, limit);
    JoinEndsLike(ls, sep);
    JoinEndsLike(ls, [NUL]);
    assert sep[|sep| - 1] == ' ';
    if |ls| == 1 {
      assert Join(ls, [NUL]) == ls[0];
    }
  }

  function BlankedLines(ls: seq<string>): (r: seq<string>)
    ensures |r| == |ls|
  {
    seq(|ls|, i requires 0 <= i < |ls| => Blanked(ls[i]))
  }

  lemma {:induction false} BlankedJoin(ls: seq<string>, sep: string)
    ensures Blanked(Join(ls, sep)) == Join(BlankedLines(ls), Blanked(sep))
  {
    if |ls| > 1 {
      BlankedJoin(ls[1..], sep);
      var j := Join(ls[1..], sep);
      assert Blanked(ls[0] + sep + j) == Blanked(ls[0]) + Blanked(sep) + Blanked(j);
      assert BlankedLines(ls)[1..] == BlankedLines(ls[1..]);
    }
  }

  /** Undoing the line breaks, one blank for each, gives the command with a
      blank for every NUL: nothing is lost, added or reordered. */
  lemma WrappingPreserves(cmd: string, limit: nat, indent: nat)
    ensures var bs := BlankedLines(Lines(cmd, limit));
            && Blanked(Join(Lines(cmd, limit), "\n" + Spaces(indent))) == Join(bs, "\n" + Spaces(indent))
            && Join(bs, " ") == Blanked(cmd)
  {
    var ls, sep := Lines(cmd, limit), "\n" + Spaces(indent);
    BlankedJoin(ls, sep);
    assert Blanked(sep) == sep;
    BlankedJoin(ls, [NUL]);
    assert Blanked([NUL]) == " ";
    LinesRejoin(cmd, limit);
  }

  // ---------------------------------------------------------------- the lines of the result

  /** The text cut at its newlines. */
  function SplitLines(s: string): (ls: seq<string>)
    ensures |ls| > 0
  {
    if |s| == 0 then [""]
    else
      var n := |s| - 1;
      var front := SplitLines(s[..n]);
      if s[n] == '\n' then front + [""] else ExtendLast(front, [s[n]])
  }

  function ExtendLast(ls: seq<string>, t: string): (r: seq<string>)
    requires |ls| > 0
    ensures |r| == |ls|
  {
    ls[..|ls| - 1] + [ls[|ls| - 1] + t]
  }

  /** Line `i` of the result: blanks for NULs, indented unless it is the first. */
  function Printed(ls: seq<string>, indent: nat, i: nat): string
    requires i < |ls|
  {
    if i == 0 then Blanked(ls[0]) else Spaces(indent) + Blanked(ls[i])
  }

  /** The printed lines are the lines of the command in order, and every one with
      more than one piece is at most `lineLen` long. */
  ghost predicate FittingLines(ls: seq<string>, lineLen: nat, indent: nat, printed: seq<string>) {
    && |printed| == |ls|
    && (forall i :: 0 <= i < |ls| ==> printed[i] == Printed(ls, indent, i))
    && (forall i :: 0 <= i < |ls| && NUL in ls[i] ==> |printed[i]| <= lineLen)
    && (forall i, k :: 1 <= i < |ls| && 0 <= k < indent <= |printed[i]| ==> printed[i][k] == ' ')
  }

  lemma ExtendTwice(ls: seq<string>, t: string, u: string)
    requires |ls| > 0
    ensures ExtendLast(ExtendLast(ls, t), u) == ExtendLast(ls, t + u)
  {
    var last := ls[|ls| - 1];
    assert last + t + u == last + (t + u);
  }

  lemma SplitSnoc(s: string, c: char)
    requires c != '\n'
    ensures SplitLines(s + [c]) == ExtendLast(SplitLines(s), [c])
  {
    assert (s + [c])[..|s|] == s;
  }

  /** Appending newline-free text extends the last line. */
  lemma {:induction false} SplitAppend(s: string, t: string)
    requires '\n' !in t
    ensures SplitLines(s + t) == ExtendLast(SplitLines(s), t)
  {
    var ls := SplitLines(s);
    if |t| == 0 {
      assert s + t == s && ls[|ls| - 1] + t == ls[|ls| - 1];
    } else {
      var u, c := t[..|t| - 1], t[|t| - 1];
      SplitAppend(s, u);
      SplitSnoc(s + u, c);
      ExtendTwice(ls, u, [c]);
      assert u + [c] == t && s + u + [c] == s + t;
    }
  }

  lemma SplitNewLine(s: string, t: string)
    requires '\n' !in t
    ensures SplitLines(s + "\n" + t) == SplitLines(s) + [t]
  {
    var ls := SplitLines(s) + [""];
    assert (s + "\n")[..|s|] == s;
    assert SplitLines(s + "\n") == ls;
    SplitAppend(s + "\n", t);
    assert "" + t == t;
  }

  lemma SplitPlain(t: string)
    requires '\n' !in t
    ensures SplitLines(t) == [t]
  {
    SplitAppend("", t);
    assert "" + t == t;
  }

  /** The lines, each but the first behind the indentation. */
  function Indented(bs: seq<string>, pad: string): (r: seq<string>)
    ensures |r| == |bs|
  {
    seq(|bs|, i requires 0 <= i < |bs| => if i == 0 then bs[0] else pad + bs[i])
  }

  lemma IndentedSnoc(bs: seq<string>, pad: string, b: string)
    requires |bs| > 0
    ensures Indented(bs + [b], pad) == Indented(bs, pad) + [pad + b]
  {
  }

  lemma SplitIndented(j: string, pad: string, sep: string, b: string)
    requires sep == "\n" + pad && '\n' !in pad && '\n' !in b
    ensures SplitLines(j + sep + b) == SplitLines(j) + [pad + b]
  {
    assert j + sep + b == j + "\n" + (pad + b);
    SplitNewLine(j, pad + b);
  }

  /** Splitting undoes joining by a newline and an indentation. */
  lemma {:induction false} SplitJoined(bs: seq<string>, pad: string, sep: string)
    requires |bs| > 0 && (forall i :: 0 <= i < |bs| ==> '\n' !in bs[i])
    requires sep == "\n" + pad && '\n' !in pad
    ensures SplitLines(Join(bs, sep)) == Indented(bs, pad)
  {
    var n := |bs| - 1;
    if n == 0 {
      SplitPlain(bs[0]);
    } else {
      var front, b := bs[..n], bs[n];
      assert bs == front + [b];
      SplitJoined(front, pad, sep);
      JoinSnoc(front, b, sep);
      SplitIndented(Join(front, sep), pad, sep, b);
      IndentedSnoc(front, pad, b);
    }
  }

  lemma {:induction false} LinesKeepCharacters(cmd: string, limit: nat, ch: char)
    requires ch !in cmd
    ensures forall i :: 0 <= i < |Lines(cmd, limit)| ==> ch !in Lines(cmd, limit)[i]
    decreases |cmd|
  {
    var l := NextLine(cmd, limit);
    NextLineShape(cmd, limit);
    if |l| < |cmd| {
      LinesKeepCharacters(cmd[|l| + 1..], limit, ch);
    }
  }

  lemma BlankedHasNoNewLine(s: string)
    requires '\n' !in s
    ensures '\n' !in Blanked(s)
  {
  }

  lemma WrappedIsJoined(cmd: string, limit: nat, indent: nat, ls: seq<string>, text: string)
    requires |cmd| > 0 && '\n' !in cmd && indent > 0 && ls == Lines(cmd, limit)
    requires text == WrappedCommand(cmd, limit, indent)
    ensures text == Join(BlankedLines(ls), "\n" + Spaces(indent))
  {
    WrappedText(cmd, limit, indent);
    WrappingPreserves(cmd, limit, indent);
  }

  lemma WrappedLinesFit(cmd: string, lineLen: nat, indent: nat, ls: seq<string>, text: string)
    requires |cmd| > 0 && '\n' !in cmd && 0 < indent <= lineLen && ls == Lines(cmd, lineLen - indent)
    requires text == WrappedCommand(cmd, lineLen - indent, indent)
    ensures FittingLines(ls, lineLen, indent, SplitLines(text))
  {
    WrappedIsJoined(cmd, lineLen - indent, indent, ls, text);
    JoinedLinesFit(cmd, lineLen, indent, ls, text);
  }

  lemma JoinedLinesFit(cmd: string, lineLen: nat, indent: nat, ls: seq<string>, text: string)
    requires '\n' !in cmd && 0 < indent <= lineLen && ls == Lines(cmd, lineLen - indent)
    requires text == Join(BlankedLines(ls), "\n" + Spaces(indent))
    ensures FittingLines(ls, lineLen, indent, SplitLines(text))
  {
    LinesKeepCharacters(cmd, lineLen - indent, '\n');
    BlankedSplit(ls, Spaces(indent), "\n" + Spaces(indent), text);
    LinesFit(cmd, lineLen - indent);
    IndentedFit(ls, lineLen, indent, SplitLines(text));
  }

  lemma BlankedSplit(ls: seq<string>, pad: string, sep: string, text: string)
    requires |ls| > 0 && forall i :: 0 <= i < |ls| ==> '\n' !in ls[i]
    requires sep == "\n" + pad && '\n' !in pad && text == Join(BlankedLines(ls), sep)
    ensures SplitLines(text) == Indented(BlankedLines(ls), pad)
  {
    var bs := BlankedLines(ls);
    forall i | 0 <= i < |bs| ensures '\n' !in bs[i] {
      BlankedHasNoNewLine(ls[i]);
    }
    SplitJoined(bs, pad, sep);
  }

  lemma IndentedFit(ls: seq<string>, lineLen: nat, indent: nat, printed: seq<string>)
    requires indent <= lineLen && printed == Indented(BlankedLines(ls), Spaces(indent))
    requires forall i :: 0 <= i < |ls| && NUL in ls[i] ==> |ls[i]| <= lineLen - indent
    ensures FittingLines(ls, lineLen, indent, printed)
  {
    forall i | 0 <= i < |ls| ensures printed[i] == Printed(ls, indent, i) {
      assert BlankedLines(ls)[i] == Blanked(ls[i]);
    }
  }
}
