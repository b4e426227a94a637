/** The loop-scoped location cache (`LoopCacheManager`, core_engine.py:165-201):
    a stack of active loop names and, per name, a map from step signature to
    the screen location last found for it. Only the innermost loop's map is
    ever read or written. */
module LoopCache {
  import opened Wrappers
  import opened Geometry

  datatype Cache = Cache(caches: map<string, map<string, Point>>, stack: seq<string>)

  /** `reset()`: no namespaces and no active loop. */
  function Reset(): (c: Cache)
    ensures c.stack == [] && c.caches == map[]
  {
    Cache(map[], [])
  }

  /** `get_current_loop_id()`: the innermost active loop. */
  function CurrentLoop(c: Cache): (r: Option<string>)
    ensures r.None? <==> |c.stack| == 0
    ensures r.Some? ==> r.value == c.stack[|c.stack| - 1]
  {
    if |c.stack| == 0 then None else Some(c.stack[|c.stack| - 1])
  }

  /** Python's `if loop_id:` on the current loop name. */
  predicate InLoop(c: Cache) {
    var cur := CurrentLoop(c);
    cur.Some? && |cur.value| > 0
  }

  /** `enter(loop_id)`: push the name, creating its namespace if it has none. */
  function Enter(c: Cache, id: string): (r: Cache)
    ensures r.stack == c.stack + [id]
    ensures id in r.caches
    ensures id in c.caches ==> r.caches == c.caches
    ensures id !in c.caches ==> r.caches == c.caches[id := map[]]
  {
    Cache(if id in c.caches then c.caches else c.caches[id := map[]], c.stack + [id])
  }

  /** `exit()`: pop the innermost name and delete its namespace; nothing
      happens on an empty stack. */
  function Exit(c: Cache): (r: Cache)
    ensures |c.stack| == 0 ==> r == c
    ensures |c.stack| > 0 ==> r.stack == c.stack[..|c.stack| - 1]
    ensures |c.stack| > 0 ==> r.caches == c.caches - {c.stack[|c.stack| - 1]}
  {
    if |c.stack| == 0 then c
    else
      var id := c.stack[|c.stack| - 1];
      Cache(c.caches - {id}, c.stack[..|c.stack| - 1])
  }

  /** `clear_cache(loop_id)`: delete one namespace, leaving the stack alone. */
  function ClearCache(c: Cache, id: string): (r: Cache)
    ensures r.stack == c.stack
    ensures id !in r.caches
    ensures forall k :: k in c.caches && k != id ==> k in r.caches && r.caches[k] == c.caches[k]
    ensures r.caches.Keys <= c.caches.Keys
  {
    Cache(c.caches - {id}, c.stack)
  }

  /** `get(sig)`: looks only in the innermost loop's namespace. */
  function Get(c: Cache, sig: string): (r: Option<Point>)
    ensures !InLoop(c) ==> r.None?
    ensures r.Some? ==> var top := c.stack[|c.stack| - 1];
      top in c.caches && sig in c.caches[top] && r.value == c.caches[top][sig]
  {
    if !InLoop(c) then None
    else
      var top := c.stack[|c.stack| - 1];
      if top in c.caches && sig in c.caches[top] then Some(c.caches[top][sig]) else None
  }

  /** `set(sig, loc)`: writes only into the innermost loop's namespace, and is
      a no-op outside every loop. */
  function Set(c: Cache, sig: string, loc: Point): (r: Cache)
    ensures !InLoop(c) ==> r == c
    ensures r.stack == c.stack
    ensures InLoop(c) ==> r.caches.Keys == c.caches.Keys + {c.stack[|c.stack| - 1]}
    ensures forall k :: k in c.caches && (!InLoop(c) || k != c.stack[|c.stack| - 1]) ==>
      k in r.caches && r.caches[k] == c.caches[k]
  {
    if !InLoop(c) then c
    else
      var top := c.stack[|c.stack| - 1];
      var ns := if top in c.caches then c.caches[top] else map[];
      Cache(c.caches[top := ns[sig := loc]], c.stack)
  }

  /** A location stored in the innermost loop is read back from it. */
  lemma GetAfterSet(c: Cache, sig: string, loc: Point)
    requires InLoop(c)
    ensures Get(Set(c, sig, loc), sig) == Some(loc)
  {
  }

  /** Storing one signature leaves every other signature's lookup alone. */
  lemma GetAfterSetOther(c: Cache, sig: string, other: string, loc: Point)
    requires sig != other
    ensures Get(Set(c, sig, loc), other) == Get(c, other)
  {
  }

  /** Entering a loop that has no namespace yet hides every entry of the
      enclosing loops: nothing is found until the inner loop stores it. */
  lemma OuterEntriesInvisible(c: Cache, id: string, sig: string)
    requires id !in c.caches
    ensures Get(Enter(c, id), sig) == None
  {
  }

  /** Leaving a freshly entered loop restores the cache exactly, whatever
      the inner loop stored meanwhile. */
  lemma ExitUndoesEnter(c: Cache, id: string, sig: string, loc: Point)
    requires id !in c.caches
    ensures Exit(Enter(c, id)) == c
    ensures Exit(Set(Enter(c, id), sig, loc)) == c
  {
    var e := Enter(c, id);
    assert (c.stack + [id])[..|c.stack|] == c.stack;
    assert e.caches - {id} == c.caches;
    if |id| > 0 {
      assert Set(e, sig, loc).caches - {id} == c.caches;
    }
  }
}
