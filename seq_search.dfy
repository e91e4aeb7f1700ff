/** Linear search as done by `std::find` and `std::find_if`: the index of the
    first element satisfying a predicate, or the length ("end") when there is
    none. */
module SeqSearch {

  /** Index of the first element of `s` satisfying `p`; `|s|` stands for the
      past-the-end iterator. */
  function FindIf<T>(s: seq<T>, p: T -> bool): (i: nat)
    ensures i <= |s|
    ensures i < |s| ==> p(s[i])
    ensures forall j :: 0 <= j < i ==> !p(s[j])
  {
    if s == [] then 0
    else if p(s[0]) then 0
    else 1 + FindIf(s[1..], p)
  }
}
