/** The mutex-guarded global `std::list<int> some_list` of
    code_list_3/list3.1.cpp with its two accessors.  Dafny has no mutable
    globals, so the list lives in an object; the mutex is left out and each
    call is one atomic step. */
module GuardedList {
  import opened SeqSearch

  class SomeList {
    /** `some_list`, front to back. */
    var items: seq<int>

    constructor ()
      ensures items == []
    {
      items := [];
    }

    /** `add_to_list`: `push_back`, keeping every earlier element in place. */
    method AddToList(newVal: int)
      modifies this
      ensures items == old(items) + [newVal]
      ensures ListContains(newVal)
    {
      items := items + [newVal];
      assert items[|items| - 1] == newVal;
    }

    /** `list_contians` (sic): `std::find` over the list compared with
        `end()`; true exactly when the value occurs in the list. */
    function ListContains(valToFind: int): (found: bool)
      reads this
      ensures found <==> valToFind in items
    {
      FindIf(items, x => x == valToFind) != |items|
    }
  }

  /** A value added to the list is found, and values that were already in it
      still are. */
  method AddThenFind(x: int, y: int) returns (foundX: bool, foundY: bool)
    ensures foundX && foundY
  {
    var l := new SomeList();
    l.AddToList(x);
    l.AddToList(y);
    foundX := l.ListContains(x);
    foundY := l.ListContains(y);
  }
}
