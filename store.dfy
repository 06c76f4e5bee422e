/** The tracker's state, `{ shameMode, tx }`, how it is read back from storage,
    and the four handlers that change it: submit, delete, reset and the mode
    switch. */
module Store {
  import opened Text
  import opened Transactions

  /** A field of the parsed stored object, as far as `loadState` inspects it. */
  datatype Json = JBool(b: bool) | JArray(items: seq<Transaction>) | JOther

  /** What reading the storage key yields: nothing (or an empty string), text
      that `JSON.parse` rejects or that parses to `null`, or a parsed value and
      its two fields (a value without the field reads as `JOther`). */
  datatype Stored = Missing | Unparseable | Parsed(shameMode: Json, tx: Json)

  datatype State = State(shameMode: bool, tx: seq<Transaction>)

  /** `loadState`: the mode is off only when it was stored as exactly `false`,
      and a stored list that is not an array reads as empty. */
  function Load(s: Stored): (st: State)
    ensures !st.shameMode <==> s.Parsed? && s.shameMode == JBool(false)
    ensures s.Parsed? && s.tx.JArray? ==> st.tx == s.tx.items
    ensures !(s.Parsed? && s.tx.JArray?) ==> st.tx == []
  {
    match s
    case Missing => State(true, [])
    case Unparseable => State(true, [])
    case Parsed(mode, list) =>
      State(mode != JBool(false), if list.JArray? then list.items else [])
  }

  /** `saveState`: the state written as an object with its two fields;
      reading back what was saved gives the same state. */
  function Save(st: State): (s: Stored)
    ensures Load(s) == st
  {
    Parsed(JBool(st.shameMode), JArray(st.tx))
  }

  /** With nothing usable stored, the tracker starts in shame mode with no records. */
  lemma LoadDefault(s: Stored)
    requires s.Missing? || s.Unparseable?
    ensures Load(s) == State(true, [])
  {
  }

  /** The page's state: the mode flag, the records, and the mode checkbox,
      which the page keeps equal to the flag. */
  class Tracker {
    var shameMode: bool
    var tx: seq<Transaction>
    var checkbox: bool

    ghost predicate Valid()
      reads this
    {
      checkbox == shameMode
    }

    function Snapshot(): State
      reads this
    {
      State(shameMode, tx)
    }

    /** Page load: the state is read from storage and the checkbox set from it. */
    constructor (stored: Stored)
      ensures Valid() && Snapshot() == Load(stored)
    {
      var st := Load(stored);
      shameMode := st.shameMode;
      tx := st.tx;
      checkbox := st.shameMode;
    }

    /** The submit handler: a refused draft changes nothing; an accepted one
        appends exactly one record at the end. */
    method Submit(d: Draft, freshId: string) returns (accepted: bool)
      requires Valid()
      modifies this
      ensures Valid() && shameMode == old(shameMode)
      ensures accepted == Accepts(d)
      ensures tx == if accepted then old(tx) + [NewRecord(d, freshId)] else old(tx)
    {
      var title := Trim(d.title);
      if title == "" || d.date == "" || !d.amount.Finite? || d.amount.value <= 0.0 {
        return false;
      }
      tx := tx + [Transaction(freshId, d.kind, title, Round(d.amount.value), d.category, d.date)];
      accepted := true;
    }

    /** The delete button: every record with this id is dropped. */
    method Delete(id: string)
      requires Valid()
      modifies this
      ensures Valid() && shameMode == old(shameMode)
      ensures tx == Without(old(tx), id)
    {
      tx := Without(tx, id);
    }

    /** The reset button: the records are cleared, the mode is read from the checkbox. */
    method Reset()
      requires Valid()
      modifies this
      ensures Valid() && tx == [] && shameMode == old(shameMode)
    {
      shameMode, tx := checkbox, [];
    }

    /** The mode checkbox was toggled to `checked`. */
    method SetShameMode(checked: bool)
      requires Valid()
      modifies this
      ensures Valid() && shameMode == checked && tx == old(tx)
    {
      checkbox := checked;
      shameMode := checkbox;
    }
  }

  /** A submit keeps the records well formed and, given a fresh id, their ids unique. */
  lemma SubmitKeepsInvariants(tx: seq<Transaction>, d: Draft, id: string)
    requires Accepts(d)
    ensures AllWellFormed(tx) ==> AllWellFormed(tx + [NewRecord(d, id)])
    ensures UniqueIds(tx) && IdAbsent(tx, id) ==> UniqueIds(tx + [NewRecord(d, id)])
  {
    var t := NewRecord(d, id);
    assert t.id == id;
    if UniqueIds(tx) && IdAbsent(tx, id) {
      AppendUnique(tx, t);
    }
  }

  /** A delete keeps the records well formed. */
  lemma DeleteKeepsWellFormed(tx: seq<Transaction>, id: string)
    requires AllWellFormed(tx)
    ensures AllWellFormed(Without(tx, id))
  {
    var r := Without(tx, id);
    forall i | 0 <= i < |r| ensures WellFormed(r[i]) {
      WithoutMembers(tx, id, r[i]);
    }
  }
}
