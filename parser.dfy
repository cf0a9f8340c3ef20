/**
 * The line parser of drugs.py: the pattern `(.*\t)` repeated six times is
 * searched in every input line, and group 6 of each match, with trailing
 * whitespace removed and a `;` appended, is added to one accumulator string.
 */
module Parser {
  import opened Base
  import opened PyStr

  /** One element of `str.splitlines()`: it never contains a line feed, so the
      pattern's `.` matches every character of it. */
  type Line = s: string | '\n' !in s

  const Tab: char := '\t'

  function TabCount(s: string): nat
  {
    multiset(s)[Tab]
  }

  /** The position of the last occurrence of `c` in `s`, if any. */
  function LastIndexOf(s: string, c: char): (r: Option<nat>)
    ensures r.None? <==> c !in s
    ensures r.Some? ==> r.value < |s| && s[r.value] == c && c !in s[r.value + 1..]
  {
    if s == [] then None
    else if s[|s| - 1] == c then Some(|s| - 1)
    else
      assert s == s[..|s| - 1] + [s[|s| - 1]];
      LastIndexOf(s[..|s| - 1], c)
  }

  /** Group 6 of a search for six greedy `(.*\t)` groups. The first group takes
      as much as it can, so the match exists exactly when the line has at least
      six tabs, and group 6 is the tab-separated field just before the last tab,
      with that tab: for a line with n tabs, field n - 1 of `line.split("\t")`.
      Only for a line with exactly six tabs is this field 5, the sixth column. */
  function Capture(line: Line): (g: Option<string>)
    ensures g.Some? <==> TabCount(line) >= 6
    ensures g.Some? ==> |Split(line, Tab)| == TabCount(line) + 1
    ensures g.Some? ==> g.value == Split(line, Tab)[TabCount(line) - 1] + [Tab]
  {
    if TabCount(line) < 6 then None
    else
      var j := LastIndexOf(line, Tab).value;
      var a, b := line[..j], line[j + 1..];
      assert line == a + [Tab] + b;
      assert TabCount(a) == TabCount(line) - 1;
      var i := LastIndexOf(a, Tab).value;
      SplitPieceBeforeLast(a, b, i);
      SplitCount(line, Tab);
      assert line[i + 1..j + 1] == a[i + 1..] + [Tab];
      Some(line[i + 1..j + 1])
  }

  /** The last two pieces of `a + tab + b`, when `b` has no tab and the last tab
      of `a` is at `i`. */
  lemma SplitPieceBeforeLast(a: string, b: string, i: nat)
    requires i < |a| && a[i] == Tab && Tab !in a[i + 1..] && Tab !in b
    ensures var s := Split(a + [Tab] + b, Tab); |s| >= 2 && s[|s| - 2] == a[i + 1..]
  {
    SplitAppend(a, b, Tab);
    SplitNoSep(b, Tab);
    assert a == a[..i] + [Tab] + a[i + 1..];
    SplitAppend(a[..i], a[i + 1..], Tab);
    SplitNoSep(a[i + 1..], Tab);
  }

  /** What one line adds to the accumulator: nothing when the pattern does not
      match, otherwise group 6 right-stripped and followed by `;`. Group 6 always
      ends in a tab, so the truth test on it never rejects a match. */
  function Contribution(line: Line): string
  {
    match Capture(line)
    case None => []
    case Some(g) => RStrip(g) + [';']
  }

  /** The contribution of a matching line is its field before the last tab with
      its trailing whitespace removed (the tab itself is whitespace), then `;`. */
  lemma ContributionIsStrippedField(line: Line)
    requires TabCount(line) >= 6
    ensures |Split(line, Tab)| == TabCount(line) + 1
    ensures Contribution(line) == RStrip(Split(line, Tab)[TabCount(line) - 1]) + [';']
  {
    assert Capture(line).Some?;
    var f := Split(line, Tab)[TabCount(line) - 1];
    assert (f + [Tab])[..|f + [Tab]| - 1] == f;
  }

  /** The accumulator after the loop has visited `lines`, in order. */
  function Accumulate(lines: seq<Line>): string
  {
    if lines == [] then []
    else Accumulate(lines[..|lines| - 1]) + Contribution(lines[|lines| - 1])
  }

  /** The `;`-separated pieces of the fields the matching lines contribute. */
  function Pieces(lines: seq<Line>): seq<string>
  {
    if lines == [] then []
    else
      var last := lines[|lines| - 1];
      Pieces(lines[..|lines| - 1])
        + (match Capture(last) case None => [] case Some(g) => Split(RStrip(g), ';'))
  }

  /** The number of lines the pattern matches. */
  function MatchCount(lines: seq<Line>): nat
  {
    if lines == [] then 0
    else MatchCount(lines[..|lines| - 1]) + (if TabCount(lines[|lines| - 1]) >= 6 then 1 else 0)
  }

  /** When no captured field holds a `;`, every matching line gives exactly one piece. */
  lemma {:induction false} OnePiecePerMatch(lines: seq<Line>)
    requires forall i :: 0 <= i < |lines| && Capture(lines[i]).Some? ==> ';' !in Capture(lines[i]).value
    ensures |Pieces(lines)| == MatchCount(lines)
  {
    if lines != [] {
      var last := lines[|lines| - 1];
      OnePiecePerMatch(lines[..|lines| - 1]);
      match Capture(last)
      case None =>
      case Some(g) =>
        var f := RStrip(g);
        assert ';' !in g;
        assert ';' !in f by {
          assert f == g[..|f|];
        }
        SplitNoSep(f, ';');
    }
  }

  /** The loop of lines 74-81: fold the contributions of all lines into one string. */
  method ExtractActiveIngredients(lines: seq<Line>) returns (acc: string)
    ensures acc == Accumulate(lines)
  {
    acc := [];
    var i := 0;
    while i < |lines|
      invariant 0 <= i <= |lines|
      invariant acc == Accumulate(lines[..i])
    {
      var m := Capture(lines[i]);
      if m.Some? && m.value != [] {
        var activeIngredients := RStrip(m.value);
        activeIngredients := activeIngredients + [';'];
        acc := acc + activeIngredients;
      }
      assert lines[..i + 1][..i] == lines[..i];
      i := i + 1;
    }
    assert lines[..i] == lines;
  }

  /** Splitting the accumulator on `;` gives the pieces of every contributed
      field in line order, then one empty piece after the final `;`. In
      particular the accumulator is empty or ends in `;`. */
  lemma {:induction false} AccumulatedPieces(lines: seq<Line>)
    ensures Split(Accumulate(lines), ';') == Pieces(lines) + [[]]
    ensures Accumulate(lines) == [] || Accumulate(lines)[|Accumulate(lines)| - 1] == ';'
  {
    if lines != [] {
      var init := lines[..|lines| - 1];
      var last := lines[|lines| - 1];
      AccumulatedPieces(init);
      match Capture(last)
      case None =>
        assert Accumulate(lines) == Accumulate(init) by {
          assert Contribution(last) == [];
        }
        assert Pieces(lines) == Pieces(init);
      case Some(g) =>
        var f := RStrip(g);
        assert Accumulate(lines) == Accumulate(init) + f + [';'];
        assert Pieces(lines) == Pieces(init) + Split(f, ';');
        assert Accumulate(lines)[|Accumulate(lines)| - 1] == ';';
        AppendTerminatedField(Accumulate(init), Pieces(init), f);
    }
  }

  /** Appending `f;` to a string that is empty or ends in `;` appends the pieces
      of `f` before the final empty piece. */
  lemma AppendTerminatedField(a: string, ps: seq<string>, f: string)
    requires Split(a, ';') == ps + [[]]
    requires a == [] || a[|a| - 1] == ';'
    ensures Split(a + f + [';'], ';') == ps + Split(f, ';') + [[]]
  {
    var e: string := [];
    assert Split(a + f + [';'], ';') == Split(a + f, ';') + [[]] by {
      SplitAppend(a + f, e, ';');
      assert a + f + [';'] + e == a + f + [';'];
    }
    if a == [] {
      assert a + f == f;
    } else {
      var a' := a[..|a| - 1];
      assert Split(a', ';') == ps by {
        assert a' + [';'] + e == a;
        SplitAppend(a', e, ';');
        assert Split(a', ';') == (Split(a', ';') + [[]])[..|ps|];
      }
      assert Split(a + f, ';') == Split(a', ';') + Split(f, ';') by {
        assert a + f == a' + [';'] + f;
        SplitAppend(a', f, ';');
      }
    }
  }
}
