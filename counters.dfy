/**
 * The two ID counters `clean_decisions` builds for itself
 * (data/db_updater.py, `make_id_counter` and `make_hex_counter`). Each closure
 * keeps its next number in captured state; here that state is a field.
 */
module Counters {
  import opened Text

  /** `make_id_counter`: hands out 1, 2, 3, ... one number per call. */
  class IdCounter {
    var next: nat

    constructor ()
      ensures next == 1
    {
      next := 1;
    }

    method Next() returns (id: nat)
      modifies this
      ensures id == old(next) && next == old(next) + 1
    {
      id := next;
      next := next + 1;
    }
  }

  /** `make_hex_counter`: an ID counter of its own, its numbers written in lowercase hexadecimal. */
  class HexCounter {
    const ids: IdCounter

    constructor ()
      ensures fresh(ids) && ids.next == 1
    {
      ids := new IdCounter();
    }

    method Next() returns (h: string)
      modifies ids
      ensures h == Hex(old(ids.next)) && ids.next == old(ids.next) + 1
    {
      var n := ids.Next();
      h := Hex(n);
    }
  }
}
