/**
 * Turning what the recogniser saw into board codes. The recogniser reports a
 * label per cell: one of the twelve template names, or "unknown" when no
 * template matched well enough. The update loop writes the code of each
 * recognised label into the internal board and leaves a cell with an
 * unknown label as it was.
 */
module BoardUpdate {

  import opened Wrappers
  import opened Board
  import opened GameStatus

  /** The digit of a number template, num_1 .. num_8. */
  type Digit = k: int | 1 <= k <= 8 witness 1

  /** What the recogniser reports for one cell image. */
  datatype Label = Unopened | Flagged | OpenEmpty | Num(k: Digit) | Mine | Unknown

  /** The name of a number template: "num_1" .. "num_8". */
  predicate IsNumberName(s: string) {
    |s| == 5 && s[..4] == "num_" && '1' <= s[4] <= '8'
  }

  /** The names the recogniser can return: the twelve template names and "unknown". */
  predicate IsStateName(s: string) {
    s in {"unopened", "flagged", "mine", "open_empty", "unknown"} || IsNumberName(s)
  }

  /** The name the recogniser returns for a label. */
  function NameOf(l: Label): (name: string)
    ensures IsStateName(name)
  {
    match l
    case Unopened => "unopened"
    case Flagged => "flagged"
    case OpenEmpty => "open_empty"
    case Num(k) => "num_" + [('0' as int + k) as char]
    case Mine => "mine"
    case Unknown => "unknown"
  }

  /**
   * The update loop's test of the returned name, in its order: the exact
   * names, then any name starting with "num_" read as the number after the
   * underscore, then "mine"; anything else is left unrecognised.
   */
  function ParseState(state: string): (l: Label)
    requires IsStateName(state)
    ensures NameOf(l) == state
  {
    if state == "unopened" then Unopened
    else if state == "flagged" then Flagged
    else if state == "open_empty" then OpenEmpty
    else if |state| >= 4 && state[..4] == "num_" then
      assert state[0] == state[..4][0] == 'n';
      assert IsNumberName(state);
      Num(state[4] as int - '0' as int)
    else if state == "mine" then Mine
    else Unknown
  }

  /** Parsing the name of a label gives the label back. */
  lemma ParseNameOf(l: Label)
    ensures ParseState(NameOf(l)) == l
  {
    var name := NameOf(l);
    assert NameOf(ParseState(name)) == name;
    NameOfInjective(ParseState(name), l);
  }

  /** Different labels have different names. */
  lemma NameOfInjective(l1: Label, l2: Label)
    requires NameOf(l1) == NameOf(l2)
    ensures l1 == l2
  {
    if l1.Num? && l2.Num? {
      assert NameOf(l1)[4] == NameOf(l2)[4];
    }
  }

  /**
   * The code the update loop stores for label l over the previous code
   * prev: every recognised label fixes the code, an unknown label keeps prev.
   */
  function CodeFor(l: Label, prev: int): (v: int)
    ensures l != Unknown ==> WellCoded(v)
    ensures l == Unknown ==> v == prev
  {
    match l
    case Unopened => UNOPENED
    case Flagged => FLAG
    case OpenEmpty => BLANK
    case Num(k) => k
    case Mine => MINE
    case Unknown => prev
  }

  /** The label a code stands for: the inverse of CodeFor on recognised labels. */
  function LabelOf(v: int): (l: Option<Label>)
    ensures l.Some? <==> WellCoded(v)
  {
    if v == UNOPENED then Some(Unopened)
    else if v == FLAG then Some(Flagged)
    else if v == BLANK then Some(OpenEmpty)
    else if IsNumeric(v) then Some(Num(v))
    else if v == MINE then Some(Mine)
    else None
  }

  /** Reading back the code of a recognised label gives the label again. */
  lemma LabelRoundTrip(l: Label, prev: int)
    requires l != Unknown
    ensures LabelOf(CodeFor(l, prev)) == Some(l)
  {
  }

  /** Every code the loop writes is the code of its own label, whatever came before. */
  lemma CodeRoundTrip(v: int, prev: int)
    requires WellCoded(v)
    ensures LabelOf(v).Some? && LabelOf(v).value != Unknown && CodeFor(LabelOf(v).value, prev) == v
  {
  }

  /** Different recognised labels get different codes. */
  lemma CodeForInjective(l1: Label, l2: Label, prev: int)
    requires l1 != Unknown && l2 != Unknown && CodeFor(l1, prev) == CodeFor(l2, prev)
    ensures l1 == l2
  {
    LabelRoundTrip(l1, prev);
    LabelRoundTrip(l2, prev);
  }

  /** Seeing the same label twice changes nothing the second time. */
  lemma CodeForIdempotent(l: Label, prev: int)
    ensures CodeFor(l, CodeFor(l, prev)) == CodeFor(l, prev)
  {
  }

  /** One label per cell of a rows x cols board. */
  predicate Shaped(labels: seq<seq<Label>>, rows: int, cols: int) {
    |labels| == rows && forall i :: 0 <= i < |labels| ==> |labels[i]| == cols
  }

  /**
   * update_internal_board: every cell takes the code of its label; a cell
   * with an unknown label keeps its previous code.
   */
  method UpdateBoard(b: array2<int>, labels: seq<seq<Label>>)
    requires Shaped(labels, b.Length0, b.Length1)
    modifies b
    ensures forall i, j :: 0 <= i < b.Length0 && 0 <= j < b.Length1 ==>
      b[i, j] == CodeFor(labels[i][j], old(b[i, j]))
  {
    for r := 0 to b.Length0
      invariant forall i, j :: 0 <= i < r && 0 <= j < b.Length1 ==> b[i, j] == CodeFor(labels[i][j], old(b[i, j]))
      invariant forall i, j :: r <= i < b.Length0 && 0 <= j < b.Length1 ==> b[i, j] == old(b[i, j])
    {
      for c := 0 to b.Length1
        invariant forall i, j :: 0 <= i < r && 0 <= j < b.Length1 ==> b[i, j] == CodeFor(labels[i][j], old(b[i, j]))
        invariant forall j :: 0 <= j < c ==> b[r, j] == CodeFor(labels[r][j], old(b[r, j]))
        invariant forall i, j :: r < i < b.Length0 && 0 <= j < b.Length1 ==> b[i, j] == old(b[i, j])
        invariant forall j :: c <= j < b.Length1 ==> b[r, j] == old(b[r, j])
      {
        match labels[r][c]
        case Unopened => b[r, c] := UNOPENED;
        case Flagged => b[r, c] := FLAG;
        case OpenEmpty => b[r, c] := BLANK;
        case Num(k) => b[r, c] := k;
        case Mine => b[r, c] := MINE;
        case Unknown =>
      }
    }
  }

  /**
   * The update loop keeps the board well coded: a well-coded cell stays
   * well coded, and a recognised label makes any cell well coded.
   */
  lemma UpdateKeepsWellCoded(l: Label, prev: int)
    requires WellCoded(prev) || l != Unknown
    ensures WellCoded(CodeFor(l, prev))
  {
  }

  /** The initial board: rows x cols cells, all unopened. */
  method NewBoard(rows: nat, cols: nat) returns (b: array2<int>)
    ensures fresh(b) && b.Length0 == rows && b.Length1 == cols
    ensures forall i, j :: 0 <= i < rows && 0 <= j < cols ==> b[i, j] == UNOPENED
  {
    b := new int[rows, cols]((i, j) => UNOPENED);
  }
}
