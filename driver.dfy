/**
 * The top-level script of drugs.py, from the lines of the input file to the
 * rows appended to the output file: parse, split on `;`, drop the header
 * piece, deduplicate, clean, deduplicate again, then look up and write every
 * name, pausing after every fifth.
 */
module Driver {
  import opened Base
  import opened PyStr
  import opened Parser
  import opened Names
  import opened Output

  /** Lines 68-109 once the input file has been read and split into lines. */
  method Run(lines: seq<Line>, fetch: Fetch) returns (names: set<string>, rows: seq<Row>, pauses: seq<nat>)
    ensures names == NameSet(lines)
    ensures NoDup(rows) && Elements(rows) == Expected(names, fetch)
    ensures |pauses| == (|names| + 4) / 5
    ensures forall i: nat :: i in pauses <==> i < |names| && PausesAfter(i)
  {
    var activeIngredientsString := ExtractActiveIngredients(lines);
    var activeIngredientsList := Split(activeIngredientsString, ';');
    activeIngredientsList := activeIngredientsList[1..];
    var nonRedundant := Elements(activeIngredientsList);
    var finalListOfNames := CleanNames(nonRedundant);
    names := Elements(finalListOfNames);
    rows, pauses := WriteRows(names, fetch);
  }
}
