/** Lookup by id in a table kept as a sequence, shared by both stores. */
module Lookup {
  import opened Wrappers

  /** The first element of `s` whose `key` is `id`, if there is one. */
  function FindBy<T>(s: seq<T>, key: T -> int, id: int): (r: Option<T>)
    ensures r.Some? ==> r.value in s && key(r.value) == id
    ensures r.None? <==> forall x :: x in s ==> key(x) != id
  {
    if s == [] then None
    else if key(s[0]) == id then Some(s[0])
    else FindBy(s[1..], key, id)
  }
}
