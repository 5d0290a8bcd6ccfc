/** The arena allocator the options and the file system use for temporary
    native strings. Only what the modelled code observes is kept: which
    strings are currently allocated, and whether the arena was disposed. */
module Arenas {

  datatype Arena = Arena(id: nat, capacity: nat, live: seq<string>, isDisposed: bool)

  /** A new, empty arena. */
  function New(id: nat, capacity: nat): (a: Arena)
    ensures a.id == id && a.capacity == capacity && a.live == [] && !a.isDisposed
  {
    Arena(id, capacity, [], false)
  }

  /** Release every allocation at once. */
  function Reset(a: Arena): (r: Arena)
    ensures r.live == [] && r.(live := a.live) == a
  {
    a.(live := [])
  }

  /** Copy a managed string into the arena as a C string. */
  function AllocateCString(a: Arena, s: string): (r: Arena)
    ensures r.live == a.live + [s] && r.(live := a.live) == a
  {
    a.(live := a.live + [s])
  }

  function Dispose(a: Arena): (r: Arena)
    ensures r.isDisposed && r.(isDisposed := a.isDisposed) == a
  {
    a.(isDisposed := true)
  }
}
