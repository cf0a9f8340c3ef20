/**
 * The name normaliser of drugs.py: the accumulator is split on `;`, the first
 * piece (taken to be the column header) is dropped, the pieces are
 * deduplicated, every non-empty piece loses its parentheses and leading
 * whitespace, and the cleaned names are deduplicated again. Python's `set`
 * has no defined iteration order, so both deduplications give Dafny sets and
 * the loop over the first one visits its elements in an unspecified order.
 */
module Names {
  import opened Base
  import opened PyStr
  import opened Parser

  /** The list after `split(";")` and `pop(0)`: the pieces of the contributed
      fields minus the very first one, and the empty piece after the final `;`.
      With no matching line the list is empty, and `pop(0)` never fails because
      a split always has a first piece. */
  function Remaining(lines: seq<Line>): (r: seq<string>)
    ensures r == if Pieces(lines) == [] then [] else Pieces(lines)[1..] + [[]]
  {
    AccumulatedPieces(lines);
    Split(Accumulate(lines), ';')[1..]
  }

  /** When no captured field holds a `;`, the list after `pop(0)` has one entry
      per matching line: the header's piece is gone and the empty piece after
      the final `;` takes its place in the count. */
  lemma RemainingCount(lines: seq<Line>)
    requires forall i :: 0 <= i < |lines| && Capture(lines[i]).Some? ==> ';' !in Capture(lines[i]).value
    ensures |Remaining(lines)| == MatchCount(lines)
  {
    OnePiecePerMatch(lines);
  }

  /** One entry cleaned: every `(` and `)` deleted, then leading whitespace
      stripped. Trailing whitespace stays. */
  function Clean(p: string): (r: string)
    ensures '(' !in r && ')' !in r
    ensures r == [] || !IsSpace(r[0])
  {
    var noOpen := Remove(p, '(');
    var noParens := Remove(noOpen, ')');
    assert '(' !in noParens;
    var r := LStrip(noParens);
    assert forall c :: c in r ==> c in noParens;
    r
  }

  /** Cleaning a clean name changes nothing. */
  lemma CleanIdempotent(p: string)
    ensures Clean(Clean(p)) == Clean(p)
  {
    var q := Clean(p);
    RemoveAbsent(q, '(');
    RemoveAbsent(q, ')');
  }

  /** Whitespace after the last visible character survives cleaning. */
  lemma CleanKeepsTrailingSpace(p: string, w: string)
    requires AllSpace(w)
    requires Clean(p) != []
    ensures Clean(p + w) == Clean(p) + w
  {
    assert '(' !in w && ')' !in w by {
      assert IsSpace(' ');
      forall i | 0 <= i < |w| ensures w[i] != '(' && w[i] != ')' {
        assert IsSpace(w[i]);
      }
    }
    RemoveAppend(p, w, '(');
    RemoveAbsent(w, '(');
    var p1 := Remove(p, '(');
    RemoveAppend(p1, w, ')');
    RemoveAbsent(w, ')');
    LStripAppend(Remove(p1, ')'), w);
  }

  /** The names the cleaning loop produces from a set of entries. */
  function Cleaned(entries: set<string>): set<string>
  {
    set p | p in entries && p != [] :: Clean(p)
  }

  /** The loop of lines 89-93, over the deduplicated entries in whatever order
      the set yields them: one cleaned name appended per non-empty entry. */
  method CleanNames(entries: set<string>) returns (names: seq<string>)
    ensures Elements(names) == Cleaned(entries)
    ensures |names| == |entries| - (if [] in entries then 1 else 0)
  {
    names := [];
    var rest := entries;
    ghost var done: set<string> := {};
    while rest != {}
      invariant done + rest == entries && done !! rest
      invariant Elements(names) == Cleaned(done)
      invariant |names| == |done| - (if [] in done then 1 else 0)
      decreases |rest|
    {
      var entry :| entry in rest;
      CleanStep(names, done, entry);
      if entry != [] {
        names := names + [Clean(entry)];
      }
      rest := rest - {entry};
      done := done + {entry};
    }
  }

  /** One turn of the cleaning loop keeps its invariant. */
  lemma CleanStep(names: seq<string>, done: set<string>, entry: string)
    requires entry !in done
    requires Elements(names) == Cleaned(done)
    requires |names| == |done| - (if [] in done then 1 else 0)
    ensures var next := if entry != [] then names + [Clean(entry)] else names;
      Elements(next) == Cleaned(done + {entry}) &&
      |next| == |done + {entry}| - (if [] in done + {entry} then 1 else 0)
  {
    assert Cleaned(done + {entry}) == Cleaned(done) + (if entry != [] then {Clean(entry)} else {});
    if entry != [] {
      assert Elements(names + [Clean(entry)]) == Elements(names) + {Clean(entry)};
    }
  }

  /** The final deduplicated name set for a run over `lines`. */
  function NameSet(lines: seq<Line>): (r: set<string>)
    ensures forall n :: n in r ==> '(' !in n && ')' !in n && (n == [] || !IsSpace(n[0]))
  {
    Cleaned(Elements(Remaining(lines)))
  }

  /** Normalising the cleaned names once more gives the same names, except that
      an empty name (from an entry made only of parentheses and whitespace)
      is now skipped. */
  lemma RenormalizeIsIdentity(entries: set<string>)
    ensures Cleaned(Cleaned(entries)) == Cleaned(entries) - {[]}
  {
    forall n | n in Cleaned(entries)
      ensures Clean(n) == n
    {
      var p :| p in entries && p != [] && Clean(p) == n;
      CleanIdempotent(p);
    }
  }

  /** With no line holding six tabs there is no name and no error. */
  lemma {:induction false} NoMatchNoNames(lines: seq<Line>)
    requires forall i :: 0 <= i < |lines| ==> TabCount(lines[i]) < 6
    ensures Pieces(lines) == []
    ensures NameSet(lines) == {}
  {
    if lines != [] {
      NoMatchNoNames(lines[..|lines| - 1]);
    }
  }
}
