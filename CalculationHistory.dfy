/**
 * The calculation history: an in-memory list, newest first, and a snapshot of it kept in
 * browser storage under one key. Every mutation replaces the list and then rewrites the
 * snapshot; a failed write is swallowed.
 */
module CalculationHistory {
  import opened Sequences
  import opened CalculationModel

  /**
   * The value stored under the key, after decoding: nothing stored (or an empty string),
   * text that does not decode to an array of calculations, or the decoded entries.
   */
  datatype StoredValue = Missing | Malformed | Entries(entries: seq<Calculation>)

  /** What loading yields: the stored entries in stored order, or an empty list when there is nothing usable. */
  function Loaded(stored: StoredValue): seq<Calculation>
  {
    match stored
    case Entries(entries) => entries
    case _ => []
  }

  /** The list without the entries carrying `id`. */
  function WithoutId(calculations: seq<Calculation>, id: string): seq<Calculation>
  {
    Filter(calculations, (c: Calculation) => c.id != id)
  }

  /**
   * Removing by id deletes every entry with that id and keeps all other entries, in their
   * original order.
   */
  lemma WithoutIdSpec(calculations: seq<Calculation>, id: string)
    ensures IsSubsequence(WithoutId(calculations, id), calculations)
    ensures forall c :: c in WithoutId(calculations, id) <==> c in calculations && c.id != id
  {
    FilterIsSubsequence(calculations, (c: Calculation) => c.id != id);
    forall c
      ensures c in WithoutId(calculations, id) <==> c in calculations && c.id != id
    {
      FilterMembership(calculations, (c: Calculation) => c.id != id, c);
    }
  }

  /** Removing an id that no entry carries leaves the list as it was. */
  lemma WithoutAbsentId(calculations: seq<Calculation>, id: string)
    requires forall i :: 0 <= i < |calculations| ==> calculations[i].id != id
    ensures WithoutId(calculations, id) == calculations
  {
    FilterAllKept(calculations, (c: Calculation) => c.id != id);
  }

  /** Adding an entry and then removing its id restores the list, when no other entry had that id. */
  lemma AddThenRemove(calculations: seq<Calculation>, c: Calculation)
    requires forall i :: 0 <= i < |calculations| ==> calculations[i].id != c.id
    ensures WithoutId([c] + calculations, c.id) == calculations
  {
    assert ([c] + calculations)[1..] == calculations;
    WithoutAbsentId(calculations, c.id);
  }

  /** Removing the same id twice is the same as removing it once. */
  lemma RemoveTwice(calculations: seq<Calculation>, id: string)
    ensures WithoutId(WithoutId(calculations, id), id) == WithoutId(calculations, id)
  {
    FilterIdempotent(calculations, (c: Calculation) => c.id != id);
  }

  class CalculationHistoryService {
    var calculations: seq<Calculation>
    var stored: StoredValue

    /** Starts from whatever the storage holds; unusable data gives an empty history. */
    constructor (initial: StoredValue)
      ensures calculations == Loaded(initial) && stored == initial
    {
      stored := initial;
      calculations := Loaded(initial);
    }

    /**
     * Rewrites the snapshot from the list. `writeOk` is the outcome of the storage write;
     * when it fails, the snapshot keeps its old value and nothing is reported.
     */
    method SaveToStorage(writeOk: bool)
      modifies this`stored
      ensures writeOk ==> stored == Entries(calculations)
      ensures !writeOk ==> stored == old(stored)
    {
      if writeOk {
        stored := Entries(calculations);
      }
    }

    /** Puts `c` in front of the list (newest first), then saves. */
    method AddCalculation(c: Calculation, writeOk: bool)
      modifies this
      ensures calculations == [c] + old(calculations)
      ensures calculations[0] == c
      ensures writeOk ==> stored == Entries(calculations) && Loaded(stored) == calculations
      ensures !writeOk ==> stored == old(stored)
    {
      calculations := [c] + calculations;
      SaveToStorage(writeOk);
    }

    /** Deletes every entry with `id`, keeping the others in order, then saves. */
    method RemoveCalculation(id: string, writeOk: bool)
      modifies this
      ensures calculations == WithoutId(old(calculations), id)
      ensures forall i :: 0 <= i < |calculations| ==> calculations[i].id != id
      ensures writeOk ==> stored == Entries(calculations) && Loaded(stored) == calculations
      ensures !writeOk ==> stored == old(stored)
    {
      calculations := WithoutId(calculations, id);
      SaveToStorage(writeOk);
    }

    /** Empties the list, then saves. */
    method ClearAll(writeOk: bool)
      modifies this
      ensures calculations == []
      ensures writeOk ==> stored == Entries([]) && Loaded(stored) == []
      ensures !writeOk ==> stored == old(stored)
    {
      calculations := [];
      SaveToStorage(writeOk);
    }
  }
}
