/**
 * The lookup and the output writer of drugs.py. The remote service is a
 * parameter `fetch`: the plain-text body it answers for a name, or `None`
 * where the request raised `HTTPError`. For every name the distinct
 * whitespace-separated tokens of the answer are written, one row each, and
 * the run pauses after every name whose position is a multiple of five.
 */
module Output {
  import opened Base
  import opened PyStr

  /** One line of the output file: a SMILES string and the name it was found for. */
  datatype Row = Row(smiles: string, name: string)
  {
    /** The text written for the row. Commas inside either part are not escaped. */
    function Text(): string
    {
      smiles + [','] + name + ['\n']
    }
  }

  /** The lookup service: the response body for a name, or `None` for an `HTTPError`. */
  type Fetch = string -> Option<string>

  /** `get_smiles_from_name` with `extract_smiles_from_pubchem_response`: the
      response body split on whitespace runs, or `None` when the request failed. */
  function GetSmilesFromName(fetch: Fetch, name: string): (r: Option<seq<string>>)
    ensures r.None? <==> fetch(name).None?
    ensures r.Some? ==> forall i :: 0 <= i < |r.value| ==> r.value[i] != [] && NoSpace(r.value[i])
    ensures r.Some? ==> SplitWhitespace(Join(r.value, " ")) == r.value
    ensures r.Some? ==> r.value == SplitWhitespace(fetch(name).value)
    ensures r.Some? ==> Join(r.value, " ") == Collapse(fetch(name).value)
  {
    match fetch(name)
    case None => None
    case Some(body) =>
      var tokens := SplitWhitespace(body);
      SplitWhitespaceJoin(tokens);
      SplitWhitespaceCollapse(body);
      Some(tokens)
  }

  /** The SMILES strings written for a name: the distinct tokens of its lookup,
      none when the lookup failed or answered only whitespace. */
  function Hits(fetch: Fetch, name: string): set<string>
  {
    match fetch(name)
    case None => {}
    case Some(body) => Elements(SplitWhitespace(body))
  }

  /** Every row a run over `names` writes. */
  function Expected(names: set<string>, fetch: Fetch): set<Row>
  {
    set n, t | n in names && t in Hits(fetch, n) :: Row(t, n)
  }

  /** The pacing rule of line 108: the run sleeps after the name at position `i`
      exactly when `i` is a multiple of five, the first name included. */
  predicate PausesAfter(i: nat)
  {
    i % 5 == 0
  }

  /** The inner loop of lines 104-106: one row per distinct SMILES string of a
      name, in whatever order the set yields them. */
  method WriteName(name: string, smiles: set<string>) returns (block: seq<Row>)
    ensures NoDup(block)
    ensures Elements(block) == set t | t in smiles :: Row(t, name)
    ensures |block| == |smiles|
  {
    block := [];
    var left := smiles;
    while left != {}
      invariant left <= smiles
      invariant NoDup(block)
      invariant Elements(block) == set t | t in smiles - left :: Row(t, name)
      invariant |block| + |left| == |smiles|
      decreases |left|
    {
      var smilesLine :| smilesLine in left;
      WriteNameStep(name, smiles, left, block, smilesLine);
      block := block + [Row(smilesLine, name)];
      left := left - {smilesLine};
    }
  }

  /** One turn of the inner loop keeps its invariant. */
  lemma WriteNameStep(name: string, smiles: set<string>, left: set<string>, block: seq<Row>, t: string)
    requires t in left && left <= smiles
    requires NoDup(block)
    requires Elements(block) == set u | u in smiles - left :: Row(u, name)
    ensures NoDup(block + [Row(t, name)])
    ensures Elements(block + [Row(t, name)]) == set u | u in smiles - (left - {t}) :: Row(u, name)
  {
    assert Row(t, name) !in Elements(block);
    assert Elements(block + [Row(t, name)]) == Elements(block) + {Row(t, name)};
    assert smiles - (left - {t}) == (smiles - left) + {t};
  }

  /** The loop of lines 100-109 over the final names, in whatever order the set
      yields them: the rows written and the positions after which it sleeps. */
  method WriteRows(names: set<string>, fetch: Fetch) returns (rows: seq<Row>, pauses: seq<nat>)
    ensures NoDup(rows) && Elements(rows) == Expected(names, fetch)
    ensures |pauses| == (|names| + 4) / 5
    ensures forall k :: 0 <= k < |pauses| ==> pauses[k] == 5 * k
    ensures forall i: nat :: i in pauses <==> i < |names| && PausesAfter(i)
    ensures pauses == PausePositions(|names|)
  {
    rows, pauses := [], [];
    var rest := names;
    ghost var done: set<string> := {};
    var i := 0;
    while rest != {}
      invariant done + rest == names && done !! rest
      invariant i == |done|
      invariant NoDup(rows) && Elements(rows) == Expected(done, fetch)
      invariant pauses == PausePositions(i)
      decreases |rest|
    {
      var apiName :| apiName in rest;
      var smilesList := GetSmilesFromName(fetch, apiName);
      var block: seq<Row> := [];
      if smilesList.Some? && smilesList.value != [] {
        block := WriteName(apiName, Elements(smilesList.value));
      }
      WriteRowsStep(rows, done, apiName, block, fetch);
      rows := rows + block;
      assert PausePositions(i + 1) == PausePositions(i) + if PausesAfter(i) then [i] else [];
      if PausesAfter(i) {
        pauses := pauses + [i];
      }
      i := i + 1;
      rest := rest - {apiName};
      done := done + {apiName};
    }
    PausePositionsShape(|names|);
    PauseSchedule(|names|, pauses);
  }

  /** One turn of the outer loop keeps its row invariant: the new name's rows
      are new, since every earlier row belongs to an earlier name. */
  lemma WriteRowsStep(rows: seq<Row>, done: set<string>, name: string, block: seq<Row>, fetch: Fetch)
    requires name !in done
    requires NoDup(rows) && Elements(rows) == Expected(done, fetch)
    requires NoDup(block) && Elements(block) == set t | t in Hits(fetch, name) :: Row(t, name)
    ensures NoDup(rows + block) && Elements(rows + block) == Expected(done + {name}, fetch)
  {
    forall i, j | 0 <= i < |rows| && 0 <= j < |block|
      ensures rows[i] != block[j]
    {
      assert rows[i] in Elements(rows);
      assert block[j] in Elements(block);
    }
    assert Elements(rows + block) == Elements(rows) + Elements(block);
    assert Expected(done + {name}, fetch) == Expected(done, fetch) + set t | t in Hits(fetch, name) :: Row(t, name);
  }

  /** The positions below `n` after which the run sleeps, in the order the loop
      reaches them. */
  function PausePositions(n: nat): seq<nat>
  {
    if n == 0 then [] else PausePositions(n - 1) + (if PausesAfter(n - 1) then [n - 1] else [])
  }

  /** The run sleeps ceil(n/5) times, and the k-th pause follows position `5 * k`. */
  lemma {:induction false} PausePositionsShape(n: nat)
    ensures |PausePositions(n)| == (n + 4) / 5
    ensures forall k :: 0 <= k < |PausePositions(n)| ==> PausePositions(n)[k] == 5 * k
  {
    if n > 0 {
      PausePositionsShape(n - 1);
      if PausesAfter(n - 1) {
        assert (n + 4) / 5 == (n + 3) / 5 + 1;
        assert n - 1 == 5 * ((n + 3) / 5);
      } else {
        assert (n + 4) / 5 == (n + 3) / 5;
      }
    }
  }

  /** The positions `0, 5, 10, ...` below `n` are exactly the multiples of five below `n`. */
  lemma PauseSchedule(n: nat, pauses: seq<nat>)
    requires |pauses| == (n + 4) / 5
    requires forall k :: 0 <= k < |pauses| ==> pauses[k] == 5 * k
    ensures forall i: nat :: i in pauses <==> i < n && PausesAfter(i)
  {
    forall i: nat | i < n && PausesAfter(i)
      ensures i in pauses
    {
      assert pauses[i / 5] == i;
    }
  }

  /** Rows of one name are told apart by their text. */
  lemma RowTextInjective(r1: Row, r2: Row)
    requires r1.name == r2.name && r1.Text() == r2.Text()
    ensures r1 == r2
  {
    assert r1.smiles == r1.Text()[..|r1.smiles|];
    assert r2.smiles == r2.Text()[..|r2.smiles|];
  }

  /** Across names the text is ambiguous: a comma inside a SMILES string or a
      name gives two different rows the same line. */
  lemma CommaAmbiguity()
    ensures Row("C,C", "N").Text() == Row("C", "C,N").Text()
    ensures Row("C,C", "N") != Row("C", "C,N")
  {
  }
}
