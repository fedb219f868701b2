/** What the categorical cleaning of the volleyball table computes:
    standardize_columns (an allow-list per column; LOWER(TRIM(v)) is kept
    when listed and NULL stored otherwise) and replace_empty_strings (blank
    text becomes NULL), as functions on a table value, with their
    properties.

    A row maps each column to a nullable value. The integer columns (rally,
    round, the five locations, num_blockers) are deliberately given the same
    cell type as the text columns: neither pass reads or writes them, so they
    are carried as opaque cells and only their being left unchanged matters. */
module Cleaning {
  import opened SqlText

  /** The columns of the volleyball table (the schema keeps the spelling
      recieve_location). */
  datatype Column =
    | Rally | Round | Team | RecieveLocation | DiggerLocation
    | PassLandLocation | HitterLocation | HitLandLocation
    | PassRating | SetType | SetLocation | HitType | NumBlockers
    | BlockTouch | ServeType | WinReason | LoseReason | WinningTeam

  type Cell = Option<string>
  type Row = map<Column, Cell>
  type Table = seq<Row>

  /** A row holds a value (possibly NULL) for every column. */
  predicate Complete(r: Row) {
    forall c: Column :: c in r
  }

  /** The allow-list of each standardized column; None for the columns
      standardize_columns does not touch. */
  function AllowedValues(c: Column): Option<seq<string>> {
    match c
    case Team => Some(["a", "b"])
    case PassRating => Some(["in", "out"])
    case SetType => Some(["opposite", "quick", "off_speed", "bic"])
    case ServeType => Some(["jump", "float"])
    case BlockTouch => Some(["yes", "no"])
    case HitType => Some(["tip", "roll_shot", "free_ball", "off_speed", "hit", "overpass", "blocked"])
    case WinReason => Some(["kill", "hit_error", "serve_error", "tool", "ace", "net"])
    case LoseReason => Some(["kill", "hit_error", "serve_error", "tool", "ace", "net"])
    case WinningTeam => Some(["a", "b"])
    case _ => None
  }

  predicate AllowListed(c: Column) {
    AllowedValues(c).Some?
  }

  /** The order in which standardize_columns visits the allow-listed columns. */
  const StandardizedColumns: seq<Column> := [
    Team, PassRating, SetType, ServeType, BlockTouch,
    HitType, WinReason, LoseReason, WinningTeam
  ]

  /** The columns replace_empty_strings visits, in order. */
  const TextColumns: seq<Column> := [
    Team, PassRating, SetType, SetLocation,
    HitType, BlockTouch, ServeType,
    WinReason, LoseReason, WinningTeam
  ]

  function Elems(s: seq<Column>): set<Column> {
    set c | c in s
  }

  predicate Distinct(s: seq<Column>) {
    forall i, j :: 0 <= i < j < |s| ==> s[i] != s[j]
  }

  /** standardize_columns visits each allow-listed column exactly once. */
  lemma StandardizedColumnsShape()
    ensures Distinct(StandardizedColumns)
    ensures forall c :: c in StandardizedColumns <==> AllowListed(c)
  {
  }

  /** replace_empty_strings visits each of its columns once: the nine
      allow-listed columns and set_location. */
  lemma TextColumnsShape()
    ensures Distinct(TextColumns)
    ensures forall c :: c in TextColumns <==> AllowListed(c) || c == SetLocation
  {
  }

  /** No allow-list admits the empty string. */
  lemma NoBlankAllowed(c: Column)
    requires AllowListed(c)
    ensures "" !in AllowedValues(c).value
  {
  }

  // ---------------------------------------------------------------------
  // One cell

  /** The CASE expression of standardize_columns on one cell: a listed
      LOWER(TRIM(v)) is stored, anything else (unlisted, blank, NULL)
      becomes NULL. */
  function StandardizeCell(v: Cell, vocabulary: seq<string>): (r: Cell)
    ensures r.Some? ==> r.value in vocabulary && Canonical(r.value)
    ensures r.Some? ==> v.Some? && r.value == Normalize(v.value)
  {
    match v
    case None => None
    case Some(s) => if Normalize(s) in vocabulary then Some(Normalize(s)) else None
  }

  /** The UPDATE of replace_empty_strings on one cell: non-NULL text that
      is empty or only spaces becomes NULL. */
  function BlankToNull(v: Cell): (r: Cell)
    ensures r.None? <==> v.None? || AllSpaces(v.value)
    ensures r.Some? ==> r == v
  {
    if v.Some? then TrimBlank(v.value); if Trim(v.value) == "" then None else v
    else v
  }

  /** A cell survives standardization exactly when its LOWER(TRIM(.)) is
      listed, and then it holds that form. */
  lemma StandardizeCellKept(v: Cell, vocabulary: seq<string>, w: string)
    ensures StandardizeCell(v, vocabulary) == Some(w) <==>
      v.Some? && Normalize(v.value) == w && w in vocabulary
  {
  }

  /** A cell becomes NULL exactly when it was NULL or its LOWER(TRIM(.))
      is not listed; blank text is never listed when the list has no ''. */
  lemma StandardizeCellNull(v: Cell, vocabulary: seq<string>)
    ensures StandardizeCell(v, vocabulary).None? <==>
      v.None? || Normalize(v.value) !in vocabulary
    ensures "" !in vocabulary && v.Some? && AllSpaces(v.value) ==>
      StandardizeCell(v, vocabulary).None?
  {
    if v.Some? { NormalizeBlank(v.value); }
  }

  /** Standardizing a cell a second time changes nothing. */
  lemma StandardizeCellIdempotent(v: Cell, vocabulary: seq<string>)
    ensures StandardizeCell(StandardizeCell(v, vocabulary), vocabulary) == StandardizeCell(v, vocabulary)
  {
    if StandardizeCell(v, vocabulary).Some? {
      NormalizeIdempotent(v.value);
    }
  }

  /** "  KILL " in win_reason is stored as "kill". */
  lemma StandardizeKillExample(raw: string)
    requires raw == "  KILL "
    ensures AllowListed(WinReason)
    ensures StandardizeCell(Some(raw), AllowedValues(WinReason).value) == Some("kill")
  {
    KillListed();
    NormalizeKillExample(raw);
    StandardizeCellKept(Some(raw), AllowedValues(WinReason).value, "kill");
  }

  /** "kill" is on the win_reason list. */
  lemma KillListed()
    ensures AllowListed(WinReason) && "kill" in AllowedValues(WinReason).value
  {
    assert AllowedValues(WinReason).value[0] == "kill";
  }

  /** The two passes agree on one allow-listed cell: blanking first does not
      change what standardizing gives, and blanking afterwards changes
      nothing. */
  lemma CellPassesCommute(v: Cell, vocabulary: seq<string>)
    requires "" !in vocabulary
    ensures StandardizeCell(BlankToNull(v), vocabulary) == StandardizeCell(v, vocabulary)
    ensures BlankToNull(StandardizeCell(v, vocabulary)) == StandardizeCell(v, vocabulary)
  {
    StandardizeCellNull(v, vocabulary);
    var r := StandardizeCell(v, vocabulary);
    if r.Some? {
      TrimBlank(r.value);
      assert !AllSpaces(r.value) by {
        if AllSpaces(r.value) {
          NormalizeBlank(r.value);
          NormalizeFixesCanonical(r.value);
        }
      }
    }
  }

  // ---------------------------------------------------------------------
  // Rows and tables

  /** A row after the standardize_columns UPDATEs of the columns in done. */
  function StandardizeRowOn(r: Row, done: set<Column>): (s: Row)
    ensures s.Keys == r.Keys
  {
    map c | c in r ::
      if c in done && AllowListed(c) then StandardizeCell(r[c], AllowedValues(c).value) else r[c]
  }

  /** A row after the replace_empty_strings UPDATEs of the columns in done. */
  function BlankRowOn(r: Row, done: set<Column>): (s: Row)
    ensures s.Keys == r.Keys
  {
    map c | c in r :: if c in done then BlankToNull(r[c]) else r[c]
  }

  /** The table after standardize_columns: same rows, same columns, each
      allow-listed cell standardized. */
  function Standardized(t: Table): (u: Table)
    ensures |u| == |t|
    ensures forall i :: 0 <= i < |t| ==> u[i].Keys == t[i].Keys
  {
    seq(|t|, i requires 0 <= i < |t| => StandardizeRowOn(t[i], Elems(StandardizedColumns)))
  }

  /** The table after replace_empty_strings. */
  function BlanksNulled(t: Table): (u: Table)
    ensures |u| == |t|
    ensures forall i :: 0 <= i < |t| ==> u[i].Keys == t[i].Keys
  {
    seq(|t|, i requires 0 <= i < |t| => BlankRowOn(t[i], Elems(TextColumns)))
  }

  /** What standardize_columns does to any one cell of the table: an
      allow-listed cell holds its trimmed lower-case form when that is
      listed and NULL otherwise; every other column (set_location and the
      integer columns) is unchanged. */
  lemma StandardizedCell(t: Table, i: int, c: Column)
    requires 0 <= i < |t| && c in t[i]
    ensures !AllowListed(c) ==> Standardized(t)[i][c] == t[i][c]
    ensures AllowListed(c) ==>
      (Standardized(t)[i][c].Some? <==> t[i][c].Some? && Normalize(t[i][c].value) in AllowedValues(c).value)
    ensures AllowListed(c) && Standardized(t)[i][c].Some? ==>
      Standardized(t)[i][c].value == Normalize(t[i][c].value)
  {
    assert c in Elems(StandardizedColumns) <==> AllowListed(c) by { StandardizedColumnsShape(); }
  }

  /** Vocabulary closure: after standardize_columns, every non-NULL value
      of an allow-listed column is on that column's list. */
  lemma StandardizedClosed(t: Table)
    ensures forall i, c :: 0 <= i < |t| && c in t[i] && AllowListed(c) && Standardized(t)[i][c].Some? ==>
      Standardized(t)[i][c].value in AllowedValues(c).value
  {
    StandardizedColumnsShape();
  }

  /** Each new cell depends on that cell's old value alone: two cells of
      one column, in any rows of any tables, that held the same value end
      up equal. */
  lemma StandardizedLocal(t: Table, u: Table, i: int, j: int, c: Column)
    requires 0 <= i < |t| && 0 <= j < |u| && c in t[i] && c in u[j]
    requires t[i][c] == u[j][c]
    ensures Standardized(t)[i][c] == Standardized(u)[j][c]
  {
  }

  /** standardize_columns is idempotent. */
  lemma StandardizedIdempotent(t: Table)
    ensures Standardized(Standardized(t)) == Standardized(t)
  {
    var u := Standardized(t);
    var done := Elems(StandardizedColumns);
    forall i | 0 <= i < |t| ensures Standardized(u)[i] == u[i] {
      forall c | c in u[i] && c in done && AllowListed(c)
        ensures StandardizeCell(u[i][c], AllowedValues(c).value) == u[i][c]
      {
        StandardizeCellIdempotent(t[i][c], AllowedValues(c).value);
      }
    }
  }

  /** What replace_empty_strings does to any one cell: a text column's cell
      becomes NULL exactly when it is non-NULL and empty or all spaces, and
      otherwise keeps its value; cells of other columns are unchanged. */
  lemma BlanksNulledCell(t: Table, i: int, c: Column)
    requires 0 <= i < |t| && c in t[i]
    ensures c in TextColumns ==>
      (BlanksNulled(t)[i][c].None? <==> t[i][c].None? || AllSpaces(t[i][c].value))
    ensures c !in TextColumns || BlanksNulled(t)[i][c].Some? ==> BlanksNulled(t)[i][c] == t[i][c]
  {
  }

  /** replace_empty_strings is idempotent. */
  lemma BlanksNulledIdempotent(t: Table)
    ensures BlanksNulled(BlanksNulled(t)) == BlanksNulled(t)
  {
    var u := BlanksNulled(t);
    forall i | 0 <= i < |t| ensures BlanksNulled(u)[i] == u[i] {
      forall c | c in u[i] && c in Elems(TextColumns) ensures BlankToNull(u[i][c]) == u[i][c] {
      }
    }
  }

  /** The two passes commute on one row. */
  lemma RowPassesCommute(r: Row)
    ensures StandardizeRowOn(BlankRowOn(r, Elems(TextColumns)), Elems(StandardizedColumns))
         == BlankRowOn(StandardizeRowOn(r, Elems(StandardizedColumns)), Elems(TextColumns))
  {
    StandardizedColumnsShape();
    TextColumnsShape();
    forall c | c in r && AllowListed(c)
      ensures StandardizeCell(BlankToNull(r[c]), AllowedValues(c).value)
           == BlankToNull(StandardizeCell(r[c], AllowedValues(c).value))
    {
      NoBlankAllowed(c);
      CellPassesCommute(r[c], AllowedValues(c).value);
    }
  }

  /** The two passes commute: blanking then standardizing gives the same
      table as standardizing then blanking. */
  lemma PassesCommute(t: Table)
    ensures Standardized(BlanksNulled(t)) == BlanksNulled(Standardized(t))
  {
    forall i | 0 <= i < |t|
      ensures Standardized(BlanksNulled(t))[i] == BlanksNulled(Standardized(t))[i]
    {
      RowPassesCommute(t[i]);
    }
  }

  /** Running replace_empty_strings before standardize_columns does not
      change what standardize_columns leaves in an allow-listed column, and
      running it afterwards changes nothing there. */
  lemma StandardizedAbsorbsBlanks(t: Table, i: int, c: Column)
    requires 0 <= i < |t| && c in t[i] && AllowListed(c)
    ensures Standardized(BlanksNulled(t))[i][c] == Standardized(t)[i][c]
    ensures BlanksNulled(Standardized(t))[i][c] == Standardized(t)[i][c]
  {
    StandardizedColumnsShape();
    TextColumnsShape();
    NoBlankAllowed(c);
    CellPassesCommute(t[i][c], AllowedValues(c).value);
  }

  // ---------------------------------------------------------------------
  // Loop steps: one more column done

  lemma ElemsStep(s: seq<Column>, k: int)
    requires 0 <= k < |s|
    ensures Elems(s[..k + 1]) == Elems(s[..k]) + {s[k]}
    ensures Distinct(s) ==> s[k] !in Elems(s[..k])
  {
    assert s[..k + 1] == s[..k] + [s[k]];
  }

  /** Standardizing column col of a row in which the columns done are
      already standardized gives the row with done + {col} standardized. */
  lemma StandardizeRowStep(r: Row, done: set<Column>, col: Column)
    requires col in r && col !in done && AllowListed(col)
    ensures var s := StandardizeRowOn(r, done);
      s[col := StandardizeCell(s[col], AllowedValues(col).value)] == StandardizeRowOn(r, done + {col})
  {
  }

  /** Blanking column col of a row in which the columns done are already
      blanked gives the row with done + {col} blanked. */
  lemma BlankRowStep(r: Row, done: set<Column>, col: Column)
    requires col in r && col !in done
    ensures var s := BlankRowOn(r, done); s[col := BlankToNull(s[col])] == BlankRowOn(r, done + {col})
  {
  }
}
