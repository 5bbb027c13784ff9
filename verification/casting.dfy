/**
 `Context.modify`: attaching a role's behaviour constant to a player. A Class
 is never attached; otherwise the player's own `cast_as` is preferred and
 `extend` is the fallback. Both change the player object in place and hand
 back the same object.
 */
module Casting {
  import opened Ruby

  /** Whether the player answers `respond_to?(:cast_as)`. */
  predicate RespondsToCastAs(heap: Heap, obj: Value) {
    obj.Ref? && obj.id in heap && heap[obj.id].castable
  }

  /**
   The behaviour `modify` leaves on the player's object: nothing for a Class
   or for `nil` and `false`; otherwise the constant, recorded as attached by
   `cast_as` when the player responds to it and by `extend` when it does not.
   */
  function Attached(heap: Heap, obj: Value, c: Const): seq<Cast> {
    if c.ClassConst? || !obj.Ref? then []
    else [Cast(if RespondsToCastAs(heap, obj) then CastAs else Extend, c)]
  }

  /** Append `added` to the behaviours of the object `id`. */
  function AttachTo(heap: Heap, id: nat, added: seq<Cast>): Heap
    requires id in heap
  {
    heap[id := heap[id].(casts := heap[id].casts + added)]
  }

  /**
   `obj.extend(c)`. Extending `nil` or `false` changes their shared class,
   not the value, so no object changes; any constant that is not a Module
   is a TypeError.
   */
  function ExtendWith(heap: Heap, obj: Value, c: Const): Result<Heap>
    requires Allocated(heap, obj)
  {
    if !c.ModuleConst? then Err(TypeError)
    else if obj.Ref? then Ok(AttachTo(heap, obj.id, [Cast(Extend, c)]))
    else Ok(heap)
  }

  /** `obj.cast_as(c)`: the player records the behaviour on itself and returns itself. */
  function CastAsSelf(heap: Heap, obj: Value, c: Const): Heap
    requires RespondsToCastAs(heap, obj)
  {
    AttachTo(heap, obj.id, [Cast(CastAs, c)])
  }

  /** `Context.modify(obj, c)`: the heap afterwards; the value returned is always `obj` itself. */
  function Modify(heap: Heap, obj: Value, c: Const): (r: Result<Heap>)
    requires Allocated(heap, obj)
    // a Class leaves every object untouched
    ensures c.ClassConst? ==> r == Ok(heap)
    // the only failure: `extend` with something that is not a Module
    ensures r.Err? <==> c.PlainConst? && !RespondsToCastAs(heap, obj)
    ensures r.Err? ==> r.error == TypeError
    // no object appears or disappears, and none changes its cast_as support
    ensures r.Ok? ==> SameShape(heap, r.value)
    // the player's own object gains exactly the attached behaviour; every other object is unchanged
    ensures r.Ok? ==> forall id :: id in heap ==>
              r.value[id].casts == heap[id].casts + (if obj == Ref(id) then Attached(heap, obj, c) else [])
  {
    if c.ClassConst? then Ok(heap)
    else if RespondsToCastAs(heap, obj) then Ok(CastAsSelf(heap, obj, c))
    else ExtendWith(heap, obj, c)
  }
}
