/**
 The `initialize` that `setup` generates, and the `role?` query over the
 resulting role map.

 Construction pairs the declared role names with the constructor arguments
 (`setup_args.zip(args)`), collects the pairs into a Hash, and then, for each
 entry in the Hash's order, looks up the constant named after the role,
 casts the player (changing the player object itself) and stores it under
 the role name as a string.
 */
module Roles {
  import opened Ruby
  import Classify
  import Casting

  /** What `setup` and the class body fix: the declared role names and the visible constants. */
  datatype ContextClass = ContextClass(setupArgs: seq<Name>, constants: map<string, Const>)

  /** A constructed context: its `roles` Hash, keyed by role name as a string. */
  datatype Context = Context(roles: map<string, Value>)

  /**
   What construction produces: the context, or the exception it raised,
   together with the objects as construction left them. Players cast before
   an exception stay cast.
   */
  datatype Built = Built(outcome: Result<Context>, heap: Heap)

  /** A list of key/value pairs; also an insertion-ordered Hash when its keys are distinct. */
  type Entries = seq<(Name, Value)>

  /** The argument `zip` pairs with position `i`: `nil` past the end. */
  function ArgAt(args: seq<Value>, i: nat): Value {
    if i < |args| then args[i] else Nil
  }

  /** `setup_args.zip(args)`: one pair per role name, extra arguments dropped. */
  function Zip(names: seq<Name>, args: seq<Value>): (r: Entries)
    ensures |r| == |names|
    ensures forall i :: 0 <= i < |r| ==> r[i] == (names[i], ArgAt(args, i))
  {
    if |names| == 0 then []
    else [(names[0], ArgAt(args, 0))] + Zip(names[1..], if |args| == 0 then [] else args[1..])
  }

  predicate DistinctKeys(h: Entries) {
    forall i, j :: 0 <= i < j < |h| ==> h[i].0 != h[j].0
  }

  function KeysOf(h: Entries): set<Name> {
    set i | 0 <= i < |h| :: h[i].0
  }

  /** The string forms of a set of names: the keys `roles` uses. */
  function ToStrings(names: set<Name>): set<string> {
    set n | n in names :: n.ToS()
  }

  lemma KeysOfCons(x: (Name, Value), t: Entries)
    ensures KeysOf([x] + t) == {x.0} + KeysOf(t)
  {
    var h := [x] + t;
    assert h[0] == x;
    forall k | k in KeysOf(t) ensures k in KeysOf(h) {
      var i :| 0 <= i < |t| && t[i].0 == k;
      assert h[i + 1] == t[i];
    }
    forall k | k in KeysOf(h) ensures k in {x.0} + KeysOf(t) {
      var i :| 0 <= i < |h| && h[i].0 == k;
      if i > 0 { assert h[i] == t[i - 1]; }
    }
  }

  /** The value stored under `k`, searching from the front. */
  function Find(h: Entries, k: Name): Option<Value>
    decreases |h|
  {
    if |h| == 0 then None
    else if h[0].0 == k then Some(h[0].1)
    else Find(h[1..], k)
  }

  /** The value of the last pair with key `k`. */
  function LastValue(pairs: Entries, k: Name): Option<Value>
    decreases |pairs|
  {
    if |pairs| == 0 then None
    else if pairs[|pairs| - 1].0 == k then Some(pairs[|pairs| - 1].1)
    else LastValue(pairs[..|pairs| - 1], k)
  }

  /** `h[k] = v` on an insertion-ordered Hash: overwrite in place, or append. */
  function Store(h: Entries, k: Name, v: Value): (r: Entries)
    decreases |h|
  {
    if |h| == 0 then [(k, v)]
    else if h[0].0 == k then [(k, v)] + h[1..]
    else [h[0]] + Store(h[1..], k, v)
  }

  /** `Hash[pairs]`: the pairs stored one after another. */
  function HashOf(pairs: Entries): Entries
    decreases |pairs|
  {
    if |pairs| == 0 then []
    else Store(HashOf(pairs[..|pairs| - 1]), pairs[|pairs| - 1].0, pairs[|pairs| - 1].1)
  }

  lemma {:induction false} StoreFacts(h: Entries, k: Name, v: Value)
    requires DistinctKeys(h)
    ensures DistinctKeys(Store(h, k, v))
    ensures KeysOf(Store(h, k, v)) == KeysOf(h) + {k}
    ensures Find(Store(h, k, v), k) == Some(v)
    ensures forall k' :: k' != k ==> Find(Store(h, k, v), k') == Find(h, k')
    ensures k !in KeysOf(h) ==> Store(h, k, v) == h + [(k, v)]
  {
    StoreKeys(h, k, v);
    StoreDistinct(h, k, v);
    StoreFind(h, k, v);
    if k !in KeysOf(h) {
      StoreAppends(h, k, v);
    }
  }

  lemma {:induction false} StoreKeys(h: Entries, k: Name, v: Value)
    ensures KeysOf(Store(h, k, v)) == KeysOf(h) + {k}
    decreases |h|
  {
    if |h| == 0 {
      assert KeysOf([(k, v)]) == {k} by { KeysOfCons((k, v), []); }
    } else if h[0].0 == k {
      KeysOfCons(h[0], h[1..]);
      KeysOfCons((k, v), h[1..]);
      assert h == [h[0]] + h[1..];
    } else {
      StoreKeys(h[1..], k, v);
      KeysOfCons(h[0], h[1..]);
      KeysOfCons(h[0], Store(h[1..], k, v));
      assert h == [h[0]] + h[1..];
    }
  }

  lemma {:induction false} StoreDistinct(h: Entries, k: Name, v: Value)
    requires DistinctKeys(h)
    ensures DistinctKeys(Store(h, k, v))
    decreases |h|
  {
    if |h| > 0 && h[0].0 != k {
      var t := h[1..];
      StoreDistinct(t, k, v);
      StoreKeys(t, k, v);
      KeysOfCons(h[0], t);
      assert h == [h[0]] + t;
      var r := Store(h, k, v);
      forall i, j | 0 <= i < j < |r| ensures r[i].0 != r[j].0 {
        if i == 0 {
          assert r[j].0 in KeysOf(Store(t, k, v)) by { assert r[j] == Store(t, k, v)[j - 1]; }
          assert h[0].0 !in KeysOf(t);
        } else {
          assert r[i] == Store(t, k, v)[i - 1] && r[j] == Store(t, k, v)[j - 1];
        }
      }
    }
  }

  lemma {:induction false} StoreFind(h: Entries, k: Name, v: Value)
    ensures Find(Store(h, k, v), k) == Some(v)
    ensures forall k' :: k' != k ==> Find(Store(h, k, v), k') == Find(h, k')
    decreases |h|
  {
    if |h| > 0 && h[0].0 != k {
      StoreFind(h[1..], k, v);
    }
  }

  lemma {:induction false} StoreAppends(h: Entries, k: Name, v: Value)
    requires k !in KeysOf(h)
    ensures Store(h, k, v) == h + [(k, v)]
    decreases |h|
  {
    if |h| > 0 {
      KeysOfCons(h[0], h[1..]);
      assert h == [h[0]] + h[1..];
      StoreAppends(h[1..], k, v);
    }
  }

  /**
   `Hash[pairs]` has each key once, has exactly the keys of the pairs, and
   holds for each key the value of its last pair.
   */
  lemma {:induction false} HashOfFacts(pairs: Entries)
    ensures DistinctKeys(HashOf(pairs))
    ensures KeysOf(HashOf(pairs)) == KeysOf(pairs)
    ensures forall k :: Find(HashOf(pairs), k) == LastValue(pairs, k)
    decreases |pairs|
  {
    if |pairs| > 0 {
      var init := pairs[..|pairs| - 1];
      var last := pairs[|pairs| - 1];
      HashOfFacts(init);
      StoreFacts(HashOf(init), last.0, last.1);
      assert KeysOf(pairs) == KeysOf(init) + {last.0};
    }
  }

  /** With distinct keys, `Hash[pairs]` keeps the pairs as they are, in order. */
  lemma {:induction false} HashOfDistinct(pairs: Entries)
    requires DistinctKeys(pairs)
    ensures HashOf(pairs) == pairs
    decreases |pairs|
  {
    if |pairs| > 0 {
      var init := pairs[..|pairs| - 1];
      var last := pairs[|pairs| - 1];
      assert DistinctKeys(init);
      HashOfDistinct(init);
      HashOfFacts(init);
      assert last.0 !in KeysOf(init);
      StoreFacts(init, last.0, last.1);
      assert init + [last] == pairs;
    }
  }


  /** The name of the behaviour constant for a role: its classified string form. */
  function ModuleName(role: Name): string {
    Classify.ClassifyString(role.ToS())
  }

  /**
   When binding a role raises: `const_defined?` refuses an invalid constant
   name, and `extend` refuses a constant that is not a Module.
   */
  predicate BindFails(cls: ContextClass, heap: Heap, role: Name, obj: Value) {
    || !ValidConstName(ModuleName(role))
    || (ModuleName(role) in cls.constants
        && cls.constants[ModuleName(role)].PlainConst?
        && !Casting.RespondsToCastAs(heap, obj))
  }

  /** The exception a failing binding raises. */
  function BindError(role: Name): Error {
    if ValidConstName(ModuleName(role)) then TypeError else NameError(ModuleName(role))
  }

  /** The behaviour binding a role leaves on the player's object. */
  function Attachment(cls: ContextClass, heap: Heap, role: Name, obj: Value): seq<Cast> {
    if ValidConstName(ModuleName(role)) && ModuleName(role) in cls.constants
    then Casting.Attached(heap, obj, cls.constants[ModuleName(role)])
    else []
  }

  /**
   One step of the generated `initialize`: look up the constant named after
   the role and, when it is defined, pass the player through `modify`. The
   player stored is always `obj` itself; the result is the heap afterwards.
   */
  function BindOne(cls: ContextClass, heap: Heap, role: Name, obj: Value): (r: Result<Heap>)
    requires Allocated(heap, obj)
    ensures r.Err? <==> BindFails(cls, heap, role, obj)
    ensures r.Err? ==> r.error == BindError(role)
    ensures r.Ok? ==> SameShape(heap, r.value)
    // only the player's own object changes, and it gains exactly the attachment
    ensures r.Ok? ==> forall id :: id in heap ==>
              r.value[id].casts == heap[id].casts + (if obj == Ref(id) then Attachment(cls, heap, role, obj) else [])
    // no constant, or a Class: nothing changes at all
    ensures r.Ok? && (ModuleName(role) !in cls.constants || cls.constants[ModuleName(role)].ClassConst?) ==>
              r.value == heap
  {
    var constName := ModuleName(role);
    if !ValidConstName(constName) then Err(NameError(constName))
    else if constName in cls.constants then Casting.Modify(heap, obj, cls.constants[constName])
    else Ok(heap)
  }

  /**
   A role named by an ordinary snake_case identifier never makes construction
   raise NameError: its classified form is always a valid constant name.
   */
  lemma SnakeCaseRoleNeverNameError(cls: ContextClass, heap: Heap, role: Name, obj: Value)
    requires Classify.SnakeCase(role.ToS())
    requires Allocated(heap, obj)
    ensures ValidConstName(ModuleName(role))
    ensures BindOne(cls, heap, role, obj).Err? ==> BindOne(cls, heap, role, obj).error == TypeError
  {
    Classify.ClassifySnakeCase(role.ToS());
  }

  /** Whether binding fails, and what it attaches, depend only on the shape of the heap. */
  lemma BindingUnderSameShape(cls: ContextClass, heap: Heap, heap': Heap)
    requires SameShape(heap, heap')
    ensures forall role, obj :: BindFails(cls, heap', role, obj) == BindFails(cls, heap, role, obj)
    ensures forall role, obj :: Attachment(cls, heap', role, obj) == Attachment(cls, heap, role, obj)
  {
  }

  /** Every object of the entries exists. */
  predicate AllAllocated(heap: Heap, entries: Entries) {
    forall i :: 0 <= i < |entries| ==> Allocated(heap, entries[i].1)
  }

  /**
   The position of the first entry whose binding raises, or the number of
   entries when none does.
   */
  function FirstFailure(cls: ContextClass, heap: Heap, entries: Entries): (k: nat)
    ensures k <= |entries|
    ensures forall i :: 0 <= i < k ==> !BindFails(cls, heap, entries[i].0, entries[i].1)
    ensures k < |entries| ==> BindFails(cls, heap, entries[k].0, entries[k].1)
    decreases |entries|
  {
    if |entries| == 0 then 0
    else if BindFails(cls, heap, entries[0].0, entries[0].1) then 0
    else 1 + FirstFailure(cls, heap, entries[1..])
  }

  /** The first failing position depends only on the shape of the heap. */
  lemma FirstFailureUnderSameShape(cls: ContextClass, heap: Heap, heap': Heap, entries: Entries)
    requires SameShape(heap, heap')
    ensures FirstFailure(cls, heap', entries) == FirstFailure(cls, heap, entries)
  {
    BindingUnderSameShape(cls, heap, heap');
  }

  /**
   Bind the entries in order into `roles`. The first binding that raises ends
   construction with that binding's exception; the heap it returns still
   holds the casts of the bindings before it.
   */
  function BindAll(cls: ContextClass, entries: Entries, roles: map<string, Value>, heap: Heap): (r: Built)
    requires AllAllocated(heap, entries)
    ensures SameShape(heap, r.heap)
    ensures r.outcome.Err? <==> exists i :: 0 <= i < |entries| && BindFails(cls, heap, entries[i].0, entries[i].1)
    ensures r.outcome.Ok? <==> FirstFailure(cls, heap, entries) == |entries|
    ensures r.outcome.Err? ==> r.outcome.error == BindError(entries[FirstFailure(cls, heap, entries)].0)
    ensures r.outcome.Ok? ==> r.outcome.value.roles.Keys == roles.Keys + ToStrings(KeysOf(entries))
    decreases |entries|
  {
    if |entries| == 0 then Built(Ok(Context(roles)), heap)
    else
      match BindOne(cls, heap, entries[0].0, entries[0].1)
      case Err(e) => Built(Err(e), heap)
      case Ok(heap') =>
        var roles' := roles[entries[0].0.ToS() := entries[0].1];
        BindStep(cls, entries, roles, heap, heap');
        var r := BindAll(cls, entries[1..], roles', heap');
        SameShapeTransitive(heap, heap', r.heap);
        r
  }

  lemma SameShapeTransitive(a: Heap, b: Heap, c: Heap)
    requires SameShape(a, b) && SameShape(b, c)
    ensures SameShape(a, c)
  {
  }

  /** After one successful binding, the rest of the entries stands for the whole. */
  lemma BindStep(cls: ContextClass, entries: Entries, roles: map<string, Value>, heap: Heap, heap': Heap)
    requires |entries| > 0 && AllAllocated(heap, entries)
    requires SameShape(heap, heap') && !BindFails(cls, heap, entries[0].0, entries[0].1)
    ensures AllAllocated(heap', entries[1..])
    ensures roles.Keys + ToStrings(KeysOf(entries))
              == roles[entries[0].0.ToS() := entries[0].1].Keys + ToStrings(KeysOf(entries[1..]))
    ensures (exists i :: 0 <= i < |entries| && BindFails(cls, heap, entries[i].0, entries[i].1))
              <==> (exists i :: 0 <= i < |entries[1..]| && BindFails(cls, heap', entries[1..][i].0, entries[1..][i].1))
    ensures FirstFailure(cls, heap, entries) == 1 + FirstFailure(cls, heap', entries[1..])
  {
    var rest := entries[1..];
    assert forall i :: 0 < i < |entries| ==> entries[i] == rest[i - 1];
    BindingUnderSameShape(cls, heap, heap');
    FirstFailureUnderSameShape(cls, heap, heap', rest);
    KeysOfCons(entries[0], rest);
    assert entries == [entries[0]] + rest;
  }

  /**
   When the first entry binds, binding the list is that binding step
   followed by the binding of the rest on the heap the step leaves.
   */
  lemma BindAllUnfold(cls: ContextClass, entries: Entries, roles: map<string, Value>, heap: Heap) returns (heap': Heap)
    requires |entries| > 0 && AllAllocated(heap, entries)
    requires !BindFails(cls, heap, entries[0].0, entries[0].1)
    ensures SameShape(heap, heap') && AllAllocated(heap', entries[1..])
    ensures forall id :: id in heap ==>
              heap'[id].casts
                == heap[id].casts + (if entries[0].1 == Ref(id) then Attachment(cls, heap, entries[0].0, entries[0].1) else [])
    ensures FirstFailure(cls, heap, entries) == 1 + FirstFailure(cls, heap', entries[1..])
    ensures BindAll(cls, entries, roles, heap) == BindAll(cls, entries[1..], roles[entries[0].0.ToS() := entries[0].1], heap')
  {
    heap' := BindOne(cls, heap, entries[0].0, entries[0].1).value;
    BindStep(cls, entries, roles, heap, heap');
  }

  /** A successful binding of a non-empty list is a successful first step and a successful rest. */
  lemma BindAllOkUnfold(cls: ContextClass, entries: Entries, roles: map<string, Value>, heap: Heap) returns (heap': Heap)
    requires |entries| > 0 && AllAllocated(heap, entries)
    requires BindAll(cls, entries, roles, heap).outcome.Ok?
    ensures SameShape(heap, heap') && AllAllocated(heap', entries[1..])
    ensures BindAll(cls, entries[1..], roles[entries[0].0.ToS() := entries[0].1], heap').outcome.Ok?
    ensures BindAll(cls, entries, roles, heap) == BindAll(cls, entries[1..], roles[entries[0].0.ToS() := entries[0].1], heap')
  {
    heap' := BindAllUnfold(cls, entries, roles, heap);
  }

  /** When the first entry fails, binding raises before any object changes. */
  lemma BindAllStops(cls: ContextClass, entries: Entries, roles: map<string, Value>, heap: Heap)
    requires AllAllocated(heap, entries)
    requires FirstFailure(cls, heap, entries) == 0
    ensures BindAll(cls, entries, roles, heap).heap == heap
  {
  }

  /** What binding the entries attaches to the object `id`, in binding order. */
  function Added(cls: ContextClass, heap: Heap, entries: Entries, id: nat): seq<Cast>
    decreases |entries|
  {
    if |entries| == 0 then []
    else
      (if entries[0].1 == Ref(id) then Attachment(cls, heap, entries[0].0, entries[0].1) else [])
      + Added(cls, heap, entries[1..], id)
  }

  lemma {:induction false} AddedUnderSameShape(cls: ContextClass, heap: Heap, heap': Heap, entries: Entries, id: nat)
    requires SameShape(heap, heap')
    ensures Added(cls, heap', entries, id) == Added(cls, heap, entries, id)
    decreases |entries|
  {
    if |entries| > 0 {
      BindingUnderSameShape(cls, heap, heap');
      AddedUnderSameShape(cls, heap, heap', entries[1..], id);
    }
  }

  /**
   Binding changes objects in place: an object passed for several roles ends
   up carrying the behaviours of all of them, in binding order. Whether or
   not a binding raises, every entry before the first failing one has been
   bound, and nothing after it.
   */
  lemma {:induction false} BindAllHeap(cls: ContextClass, entries: Entries, roles: map<string, Value>, heap: Heap)
    requires AllAllocated(heap, entries)
    ensures forall id :: id in heap ==>
              BindAll(cls, entries, roles, heap).heap[id].casts
                == heap[id].casts + Added(cls, heap, entries[..FirstFailure(cls, heap, entries)], id)
    decreases |entries|
  {
    var k := FirstFailure(cls, heap, entries);
    if k == 0 {
      BindAllStops(cls, entries, roles, heap);
      assert entries[..k] == [];
    } else {
      var heap' := BindAllUnfold(cls, entries, roles, heap);
      var rest := entries[1..];
      var roles' := roles[entries[0].0.ToS() := entries[0].1];
      BindAllHeap(cls, rest, roles', heap');
      assert entries[..k][1..] == rest[..k - 1];
      forall id | id in heap
        ensures heap'[id].casts + Added(cls, heap', rest[..k - 1], id) == heap[id].casts + Added(cls, heap, entries[..k], id)
      {
        BindOneThenRest(cls, entries[..k], heap, heap', id);
      }
    }
  }

  /** One binding step, seen from the object `id`. */
  lemma BindOneThenRest(cls: ContextClass, entries: Entries, heap: Heap, heap': Heap, id: nat)
    requires |entries| > 0 && SameShape(heap, heap') && id in heap
    requires heap'[id].casts
               == heap[id].casts + (if entries[0].1 == Ref(id) then Attachment(cls, heap, entries[0].0, entries[0].1) else [])
    ensures heap'[id].casts + Added(cls, heap', entries[1..], id) == heap[id].casts + Added(cls, heap, entries, id)
  {
    var rest := entries[1..];
    var here := if entries[0].1 == Ref(id) then Attachment(cls, heap, entries[0].0, entries[0].1) else [];
    var later := Added(cls, heap, rest, id);
    AddedUnderSameShape(cls, heap, heap', rest, id);
    assert Added(cls, heap, entries, id) == here + later;
    calc {
      heap'[id].casts + Added(cls, heap', rest, id);
      (heap[id].casts + here) + later;
      heap[id].casts + (here + later);
    }
  }

  /** No two entries share a string form. */
  predicate DistinctRoleKeys(entries: Entries) {
    forall i, j :: 0 <= i < j < |entries| ==> entries[i].0.ToS() != entries[j].0.ToS()
  }

  /** With distinct string forms, each role holds exactly the object given for it. */
  lemma {:induction false} BindAllValues(cls: ContextClass, entries: Entries, roles: map<string, Value>, heap: Heap)
    requires AllAllocated(heap, entries)
    requires DistinctRoleKeys(entries)
    requires BindAll(cls, entries, roles, heap).outcome.Ok?
    ensures forall i :: 0 <= i < |entries| ==>
              BindAll(cls, entries, roles, heap).outcome.value.roles[entries[i].0.ToS()] == entries[i].1
    decreases |entries|
  {
    if |entries| > 0 {
      var heap' := BindAllOkUnfold(cls, entries, roles, heap);
      var rest := entries[1..];
      var roles' := roles[entries[0].0.ToS() := entries[0].1];
      assert forall i :: 0 < i < |entries| ==> entries[i] == rest[i - 1];
      assert DistinctRoleKeys(rest) by {
        forall i, j | 0 <= i < j < |rest| ensures rest[i].0.ToS() != rest[j].0.ToS() {
          assert rest[i] == entries[i + 1] && rest[j] == entries[j + 1];
        }
      }
      BindAllValues(cls, rest, roles', heap');
      var m := BindAll(cls, entries, roles, heap).outcome.value.roles;
      forall i | 0 <= i < |entries|
        ensures m[entries[i].0.ToS()] == entries[i].1
      {
        if i == 0 {
          forall j | 0 <= j < |rest| ensures rest[j].0.ToS() != entries[0].0.ToS() {
            assert rest[j] == entries[j + 1];
          }
          BindAllKeeps(cls, rest, roles', heap', entries[0].0.ToS());
        } else {
          assert entries[i] == rest[i - 1];
        }
      }
    }
  }

  /** A key that no later entry touches keeps its value. */
  lemma {:induction false} BindAllKeeps(cls: ContextClass, entries: Entries, roles: map<string, Value>, heap: Heap, key: string)
    requires AllAllocated(heap, entries)
    requires key in roles && forall i :: 0 <= i < |entries| ==> entries[i].0.ToS() != key
    ensures BindAll(cls, entries, roles, heap).outcome.Ok? ==>
              BindAll(cls, entries, roles, heap).outcome.value.roles[key] == roles[key]
    decreases |entries|
  {
    if |entries| > 0 && BindAll(cls, entries, roles, heap).outcome.Ok? {
      var heap' := BindAllOkUnfold(cls, entries, roles, heap);
      var rest := entries[1..];
      assert forall i :: 0 < i < |entries| ==> entries[i] == rest[i - 1];
      BindAllKeeps(cls, rest, roles[entries[0].0.ToS() := entries[0].1], heap', key);
    }
  }

  /** Every constructor argument exists. */
  predicate ArgsAllocated(heap: Heap, args: seq<Value>) {
    forall i :: 0 <= i < |args| ==> Allocated(heap, args[i])
  }

  /** The entries `initialize` binds: `Hash[setup_args.zip(args)]`. */
  function Bindings(cls: ContextClass, args: seq<Value>): (r: Entries)
    ensures KeysOf(r) == set n | n in cls.setupArgs
    ensures DistinctKeys(r)
  {
    var z := Zip(cls.setupArgs, args);
    HashOfFacts(z);
    assert KeysOf(z) == set n | n in cls.setupArgs by {
      forall n | n in cls.setupArgs ensures n in KeysOf(z) {
        var i :| 0 <= i < |cls.setupArgs| && cls.setupArgs[i] == n;
        assert z[i].0 == n;
      }
    }
    HashOf(z)
  }

  lemma BindingsAllocated(cls: ContextClass, args: seq<Value>, heap: Heap)
    requires ArgsAllocated(heap, args)
    ensures AllAllocated(heap, Bindings(cls, args))
  {
    var z := Zip(cls.setupArgs, args);
    HashOfFacts(z);
    forall i | 0 <= i < |Bindings(cls, args)| ensures Allocated(heap, Bindings(cls, args)[i].1) {
      var e := Bindings(cls, args)[i];
      FindDistinct(Bindings(cls, args), i);
      LastValueIsSomePair(z, e.0);
    }
  }

  /** The value of a key's last pair is the value of some pair. */
  lemma {:induction false} LastValueIsSomePair(pairs: Entries, k: Name)
    requires LastValue(pairs, k).Some?
    ensures exists j :: 0 <= j < |pairs| && pairs[j].1 == LastValue(pairs, k).value
    decreases |pairs|
  {
    var n := |pairs|;
    if pairs[n - 1].0 != k {
      LastValueIsSomePair(pairs[..n - 1], k);
      var j :| 0 <= j < n - 1 && pairs[..n - 1][j].1 == LastValue(pairs, k).value;
      assert pairs[j] == pairs[..n - 1][j];
    }
  }

  /** Some declared role name has the string form `m`. */
  predicate Declares(cls: ContextClass, m: string) {
    exists i :: 0 <= i < |cls.setupArgs| && cls.setupArgs[i].ToS() == m
  }

  /**
   `setup` defines a reader for every role, and the reader takes the place of
   any method of the same name that `initialize` calls on the context itself:
   `class` (to find the constants), `roles` (to store the player) and
   `instance_variable_set`.
   */
  predicate Shadowing(cls: ContextClass) {
    Declares(cls, "class") || Declares(cls, "roles") || Declares(cls, "instance_variable_set")
  }

  /** A declared role is an entry of the Hash, so a shadowing class has at least one entry. */
  lemma ShadowingHasEntries(cls: ContextClass, args: seq<Value>)
    requires Shadowing(cls)
    ensures |Bindings(cls, args)| > 0
  {
    var m := if Declares(cls, "class") then "class" else if Declares(cls, "roles") then "roles" else "instance_variable_set";
    var i :| 0 <= i < |cls.setupArgs| && cls.setupArgs[i].ToS() == m;
    assert cls.setupArgs[i] in KeysOf(Bindings(cls, args));
  }

  /**
   The generated `initialize`: the role map it builds, or the exception it
   raises, and the objects as it leaves them. Its role keys are exactly the
   declared role names as strings, and it creates, removes and re-types no
   object. A role that shadows a method `initialize` needs makes it raise
   at the first entry: a private reader `class` is refused with
   NoMethodError before any player is cast; otherwise the first player is
   bound, and then the reader `roles` returns `nil`, which has no `[]=`, or
   the reader `instance_variable_set` is given two arguments.
   */
  function Construct(cls: ContextClass, args: seq<Value>, heap: Heap): (r: Built)
    requires ArgsAllocated(heap, args)
    ensures r.outcome.Ok? ==> r.outcome.value.roles.Keys == ToStrings(set n | n in cls.setupArgs)
    ensures SameShape(heap, r.heap)
    ensures Shadowing(cls) ==> r.outcome.Err?
    ensures Declares(cls, "class") ==> r == Built(Err(NoMethodError("class")), heap)
  {
    BindingsAllocated(cls, args, heap);
    var h := Bindings(cls, args);
    if Declares(cls, "class") then Built(Err(NoMethodError("class")), heap)
    else if Shadowing(cls) then
      ShadowingHasEntries(cls, args);
      var first := BindAll(cls, h[..1], map[], heap);
      if first.outcome.Err? then first
      else Built(Err(if Declares(cls, "roles") then NoMethodError("[]=") else ArgumentError), first.heap)
    else BindAll(cls, h, map[], heap)
  }

  /**
   Without a shadowing role, construction raises the exception of the first
   Hash entry whose binding raises, and every object carries, after its old
   behaviours, those of the entries bound before that one.
   */
  lemma ConstructStopsAtFirstFailure(cls: ContextClass, args: seq<Value>, heap: Heap)
    requires ArgsAllocated(heap, args)
    requires !Shadowing(cls)
    ensures var h := Bindings(cls, args);
            var k := FirstFailure(cls, heap, h);
            var r := Construct(cls, args, heap);
            && (r.outcome.Err? <==> k < |h|)
            && (r.outcome.Err? ==> r.outcome.error == BindError(h[k].0))
            && forall id :: id in heap ==> r.heap[id].casts == heap[id].casts + Added(cls, heap, h[..k], id)
  {
    BindingsAllocated(cls, args, heap);
    BindAllHeap(cls, Bindings(cls, args), map[], heap);
  }

  /**
   With a shadowing role other than `class`, the first Hash entry is bound as
   usual; construction then raises that binding's exception, or else the one
   the shadowing reader causes, and only the first player can have changed.
   */
  lemma ConstructShadowed(cls: ContextClass, args: seq<Value>, heap: Heap)
    requires ArgsAllocated(heap, args)
    requires Shadowing(cls) && !Declares(cls, "class")
    ensures |Bindings(cls, args)| > 0
    ensures var e := Bindings(cls, args)[0];
            var r := Construct(cls, args, heap);
            && r.outcome.Err?
            && r.outcome.error
                 == (if BindFails(cls, heap, e.0, e.1) then BindError(e.0)
                     else if Declares(cls, "roles") then NoMethodError("[]=")
                     else ArgumentError)
            && forall id :: id in heap ==>
                 r.heap[id].casts
                   == heap[id].casts
                      + (if e.1 == Ref(id) && !BindFails(cls, heap, e.0, e.1) then Attachment(cls, heap, e.0, e.1) else [])
  {
    ShadowingHasEntries(cls, args);
    BindingsAllocated(cls, args, heap);
    var h := Bindings(cls, args);
    var first := h[..1];
    assert first[0] == h[0];
    if BindFails(cls, heap, h[0].0, h[0].1) {
      BindAllStops(cls, first, map[], heap);
    } else {
      var heap' := BindAllUnfold(cls, first, map[], heap);
      assert first[1..] == [];
    }
  }

  /** No two declared role names have the same string form. */
  predicate DistinctRoleNames(names: seq<Name>) {
    forall i, j :: 0 <= i < j < |names| ==> names[i].ToS() != names[j].ToS()
  }

  /**
   With distinct role names, role `i` holds argument `i` itself (`nil` when
   fewer arguments were given), construction fails exactly when a role
   shadows a method or one of those bindings raises, and each object
   carries, after its old behaviours, those of every role it was passed for,
   in declaration order. Without a shadowing role, a failure raises the
   exception of the first failing role, and only the roles before it have
   been bound.
   */
  lemma ConstructPositional(cls: ContextClass, args: seq<Value>, heap: Heap)
    requires ArgsAllocated(heap, args)
    requires DistinctRoleNames(cls.setupArgs)
    ensures Construct(cls, args, heap).outcome.Err? <==>
              || Shadowing(cls)
              || exists i :: 0 <= i < |cls.setupArgs| && BindFails(cls, heap, cls.setupArgs[i], ArgAt(args, i))
    ensures Construct(cls, args, heap).outcome.Ok? ==>
              forall i :: 0 <= i < |cls.setupArgs| ==>
                && cls.setupArgs[i].ToS() in Construct(cls, args, heap).outcome.value.roles
                && Construct(cls, args, heap).outcome.value.roles[cls.setupArgs[i].ToS()] == ArgAt(args, i)
    ensures Construct(cls, args, heap).outcome.Ok? ==>
              forall id :: id in heap ==>
                Construct(cls, args, heap).heap[id].casts
                  == heap[id].casts + Added(cls, heap, Zip(cls.setupArgs, args), id)
    ensures !Shadowing(cls) ==>
              var k := FirstFailure(cls, heap, Zip(cls.setupArgs, args));
              var r := Construct(cls, args, heap);
              && (r.outcome.Err? ==> k < |cls.setupArgs| && r.outcome.error == BindError(cls.setupArgs[k]))
              && forall id :: id in heap ==>
                   r.heap[id].casts == heap[id].casts + Added(cls, heap, Zip(cls.setupArgs, args)[..k], id)
  {
    ConstructFails(cls, args, heap);
    if Construct(cls, args, heap).outcome.Ok? {
      ConstructValues(cls, args, heap);
      ConstructCasts(cls, args, heap);
    }
    if !Shadowing(cls) {
      BindingsArePairs(cls, args);
      ConstructStopsAtFirstFailure(cls, args, heap);
    }
  }

  lemma ConstructFails(cls: ContextClass, args: seq<Value>, heap: Heap)
    requires ArgsAllocated(heap, args)
    requires DistinctRoleNames(cls.setupArgs)
    ensures Construct(cls, args, heap).outcome.Err? <==>
              || Shadowing(cls)
              || exists i :: 0 <= i < |cls.setupArgs| && BindFails(cls, heap, cls.setupArgs[i], ArgAt(args, i))
  {
    if !Shadowing(cls) {
      var z := Zip(cls.setupArgs, args);
      BindingsArePairs(cls, args);
      BindingsAllocated(cls, args, heap);
      assert forall i :: 0 <= i < |z| ==> z[i] == (cls.setupArgs[i], ArgAt(args, i));
    }
  }

  lemma ConstructCasts(cls: ContextClass, args: seq<Value>, heap: Heap)
    requires ArgsAllocated(heap, args)
    requires DistinctRoleNames(cls.setupArgs)
    requires Construct(cls, args, heap).outcome.Ok?
    ensures forall id :: id in heap ==>
              Construct(cls, args, heap).heap[id].casts
                == heap[id].casts + Added(cls, heap, Zip(cls.setupArgs, args), id)
  {
    var z := Zip(cls.setupArgs, args);
    BindingsArePairs(cls, args);
    ConstructStopsAtFirstFailure(cls, args, heap);
    assert z[..|z|] == z;
  }

  /** With distinct role names, `Hash[...]` keeps the zipped pairs as they are. */
  lemma BindingsArePairs(cls: ContextClass, args: seq<Value>)
    requires DistinctRoleNames(cls.setupArgs)
    ensures Bindings(cls, args) == Zip(cls.setupArgs, args)
  {
    var z := Zip(cls.setupArgs, args);
    assert DistinctKeys(z);
    HashOfDistinct(z);
  }

  lemma ConstructValues(cls: ContextClass, args: seq<Value>, heap: Heap)
    requires ArgsAllocated(heap, args)
    requires DistinctRoleNames(cls.setupArgs)
    requires Construct(cls, args, heap).outcome.Ok?
    ensures forall i :: 0 <= i < |cls.setupArgs| ==>
              && cls.setupArgs[i].ToS() in Construct(cls, args, heap).outcome.value.roles
              && Construct(cls, args, heap).outcome.value.roles[cls.setupArgs[i].ToS()] == ArgAt(args, i)
  {
    var z := Zip(cls.setupArgs, args);
    BindingsArePairs(cls, args);
    BindingsAllocated(cls, args, heap);
    BindAllValues(cls, z, map[], heap);
    var m := Construct(cls, args, heap).outcome.value.roles;
    forall i | 0 <= i < |cls.setupArgs| ensures cls.setupArgs[i].ToS() in m && m[cls.setupArgs[i].ToS()] == ArgAt(args, i) {
      assert z[i] == (cls.setupArgs[i], ArgAt(args, i));
    }
  }

  /**
   An object passed for two roles is one object: both roles hold it, and,
   when both roles name Modules and the object has no `cast_as`, it carries
   both behaviours, in declaration order.
   */
  lemma AliasedPlayerCarriesBothBehaviours(cls: ContextClass, heap: Heap, id: nat)
    requires |cls.setupArgs| == 2 && DistinctRoleNames(cls.setupArgs) && !Shadowing(cls)
    requires forall i :: 0 <= i < 2 ==>
               && ValidConstName(ModuleName(cls.setupArgs[i]))
               && ModuleName(cls.setupArgs[i]) in cls.constants
               && cls.constants[ModuleName(cls.setupArgs[i])].ModuleConst?
    requires id in heap && !heap[id].castable
    ensures var r := Construct(cls, [Ref(id), Ref(id)], heap);
            && r.outcome.Ok?
            && r.outcome.value.roles == map[cls.setupArgs[0].ToS() := Ref(id), cls.setupArgs[1].ToS() := Ref(id)]
            && r.heap[id].casts
                 == heap[id].casts + [Cast(Extend, cls.constants[ModuleName(cls.setupArgs[0])]),
                                      Cast(Extend, cls.constants[ModuleName(cls.setupArgs[1])])]
  {
    var args := [Ref(id), Ref(id)];
    assert ArgsAllocated(heap, args);
    ModuleExtends(cls, heap, cls.setupArgs[0], id);
    ModuleExtends(cls, heap, cls.setupArgs[1], id);
    assert ArgAt(args, 0) == Ref(id) && ArgAt(args, 1) == Ref(id);
    ConstructFails(cls, args, heap);
    SharedPlayerRoles(cls, heap, id);
    SharedPlayerCasts(cls, heap, id);
  }

  lemma SharedPlayerRoles(cls: ContextClass, heap: Heap, id: nat)
    requires |cls.setupArgs| == 2 && DistinctRoleNames(cls.setupArgs)
    requires ArgsAllocated(heap, [Ref(id), Ref(id)])
    requires Construct(cls, [Ref(id), Ref(id)], heap).outcome.Ok?
    ensures Construct(cls, [Ref(id), Ref(id)], heap).outcome.value.roles
              == map[cls.setupArgs[0].ToS() := Ref(id), cls.setupArgs[1].ToS() := Ref(id)]
  {
    var args := [Ref(id), Ref(id)];
    assert ArgAt(args, 0) == Ref(id) && ArgAt(args, 1) == Ref(id);
    ConstructValues(cls, args, heap);
    ToStringsOfTwo(cls.setupArgs);
    MapOfTwo(Construct(cls, args, heap).outcome.value.roles, cls.setupArgs[0].ToS(), cls.setupArgs[1].ToS(), Ref(id));
  }

  lemma SharedPlayerCasts(cls: ContextClass, heap: Heap, id: nat)
    requires |cls.setupArgs| == 2 && DistinctRoleNames(cls.setupArgs)
    requires id in heap
    requires ArgsAllocated(heap, [Ref(id), Ref(id)])
    requires Construct(cls, [Ref(id), Ref(id)], heap).outcome.Ok?
    ensures Construct(cls, [Ref(id), Ref(id)], heap).heap[id].casts
              == heap[id].casts + (Attachment(cls, heap, cls.setupArgs[0], Ref(id))
                                   + Attachment(cls, heap, cls.setupArgs[1], Ref(id)))
  {
    var args := [Ref(id), Ref(id)];
    ConstructCasts(cls, args, heap);
    assert ArgAt(args, 0) == Ref(id) && ArgAt(args, 1) == Ref(id);
    assert Zip(cls.setupArgs, args) == [(cls.setupArgs[0], Ref(id)), (cls.setupArgs[1], Ref(id))];
    AddedForTwo(cls, heap, cls.setupArgs[0], cls.setupArgs[1], id);
  }

  lemma ToStringsOfTwo(names: seq<Name>)
    requires |names| == 2
    ensures ToStrings(set n | n in names) == {names[0].ToS(), names[1].ToS()}
  {
    assert (set n | n in names) == {names[0], names[1]};
  }

  lemma MapOfTwo(m: map<string, Value>, k0: string, k1: string, v: Value)
    requires m.Keys == {k0, k1} && m[k0] == v && m[k1] == v
    ensures m == map[k0 := v, k1 := v]
  {
  }

  /** A role whose constant is a Module, played by an object without `cast_as`, extends it. */
  lemma ModuleExtends(cls: ContextClass, heap: Heap, role: Name, id: nat)
    requires ValidConstName(ModuleName(role))
    requires ModuleName(role) in cls.constants && cls.constants[ModuleName(role)].ModuleConst?
    requires id in heap && !heap[id].castable
    ensures !BindFails(cls, heap, role, Ref(id))
    ensures Attachment(cls, heap, role, Ref(id)) == [Cast(Extend, cls.constants[ModuleName(role)])]
  {
  }

  /** What binding two roles to one object attaches to it. */
  lemma AddedForTwo(cls: ContextClass, heap: Heap, r0: Name, r1: Name, id: nat)
    ensures Added(cls, heap, [(r0, Ref(id)), (r1, Ref(id))], id)
              == Attachment(cls, heap, r0, Ref(id)) + Attachment(cls, heap, r1, Ref(id))
  {
    var z := [(r0, Ref(id)), (r1, Ref(id))];
    var a0 := Attachment(cls, heap, r0, Ref(id));
    var a1 := Attachment(cls, heap, r1, Ref(id));
    assert z[1..] == [(r1, Ref(id))];
    assert z[1..][1..] == [];
    assert Added(cls, heap, z[1..][1..], id) == [];
    assert Added(cls, heap, z[1..], id) == a1 + [];
    assert Added(cls, heap, z, id) == a0 + Added(cls, heap, z[1..], id);
  }

  /**
   A failing role does not undo the roles bound before it: with a Module
   behind the first role and a constant that is not a Module behind the
   second, an object without `cast_as` given for the second role makes
   construction raise TypeError, and the first player stays extended.
   */
  lemma EarlierPlayerStaysCast(cls: ContextClass, heap: Heap, a: nat, b: nat)
    requires |cls.setupArgs| == 2 && DistinctRoleNames(cls.setupArgs) && !Shadowing(cls)
    requires forall i :: 0 <= i < 2 ==>
               ValidConstName(ModuleName(cls.setupArgs[i])) && ModuleName(cls.setupArgs[i]) in cls.constants
    requires cls.constants[ModuleName(cls.setupArgs[0])].ModuleConst?
    requires cls.constants[ModuleName(cls.setupArgs[1])].PlainConst?
    requires a in heap && b in heap && a != b && !heap[a].castable && !heap[b].castable
    ensures var r := Construct(cls, [Ref(a), Ref(b)], heap);
            && r.outcome == Err(TypeError)
            && r.heap[a].casts == heap[a].casts + [Cast(Extend, cls.constants[ModuleName(cls.setupArgs[0])])]
            && r.heap[b].casts == heap[b].casts
  {
    var args := [Ref(a), Ref(b)];
    var z := Zip(cls.setupArgs, args);
    assert ArgsAllocated(heap, args);
    assert ArgAt(args, 0) == Ref(a) && ArgAt(args, 1) == Ref(b);
    assert z == [(cls.setupArgs[0], Ref(a)), (cls.setupArgs[1], Ref(b))];
    ModuleExtends(cls, heap, cls.setupArgs[0], a);
    assert BindFails(cls, heap, z[1].0, z[1].1);
    assert FirstFailure(cls, heap, z) == 1;
    ConstructPositional(cls, args, heap);
    AddedForFirst(cls, heap, z, a);
    AddedForFirst(cls, heap, z, b);
  }

  /** What binding only the first entry attaches to the object `id`. */
  lemma AddedForFirst(cls: ContextClass, heap: Heap, entries: Entries, id: nat)
    requires |entries| > 0
    ensures Added(cls, heap, entries[..1], id)
              == if entries[0].1 == Ref(id) then Attachment(cls, heap, entries[0].0, entries[0].1) else []
  {
    assert entries[..1][1..] == [];
  }

  /** Role names that are equal as strings are the same name (no Symbol next to an equal String). */
  predicate NoSymbolStringClash(names: seq<Name>) {
    forall i, j :: 0 <= i < |names| && 0 <= j < |names| && names[i].ToS() == names[j].ToS() ==>
      names[i] == names[j]
  }

  lemma {:induction false} FindDistinct(h: Entries, j: nat)
    requires DistinctKeys(h) && j < |h|
    ensures Find(h, h[j].0) == Some(h[j].1)
    decreases j
  {
    if j > 0 {
      assert h[0].0 != h[j].0;
      assert DistinctKeys(h[1..]);
      FindDistinct(h[1..], j - 1);
    }
  }

  /** Without Symbol/String clashes, the Hash of the zipped pairs has distinct string keys. */
  lemma HashRoleKeysDistinct(names: seq<Name>, args: seq<Value>)
    requires NoSymbolStringClash(names)
    ensures DistinctRoleKeys(HashOf(Zip(names, args)))
  {
    var z := Zip(names, args);
    var h := HashOf(z);
    HashOfFacts(z);
    forall i, j | 0 <= i < j < |h| ensures h[i].0.ToS() != h[j].0.ToS() {
      assert h[i].0 in KeysOf(z) && h[j].0 in KeysOf(z);
      var a :| 0 <= a < |z| && z[a].0 == h[i].0;
      var b :| 0 <= b < |z| && z[b].0 == h[j].0;
      assert z[a].0 == names[a] && z[b].0 == names[b];
    }
  }


  /**
   The roles hold the argument of each name's last occurrence, as
   `Hash[...]` keeps the last value; objects given only for an earlier,
   overridden occurrence are not cast.
   */
  lemma ConstructLastArgumentWins(cls: ContextClass, args: seq<Value>, heap: Heap, i: nat)
    requires ArgsAllocated(heap, args)
    requires NoSymbolStringClash(cls.setupArgs)
    requires Construct(cls, args, heap).outcome.Ok?
    requires i < |cls.setupArgs|
    ensures LastValue(Zip(cls.setupArgs, args), cls.setupArgs[i]).Some?
    ensures var n := cls.setupArgs[i];
            && n.ToS() in Construct(cls, args, heap).outcome.value.roles
            && Construct(cls, args, heap).outcome.value.roles[n.ToS()] == LastValue(Zip(cls.setupArgs, args), n).value
    ensures forall id :: id in heap ==>
              Construct(cls, args, heap).heap[id].casts
                == heap[id].casts + Added(cls, heap, Bindings(cls, args), id)
  {
    var z := Zip(cls.setupArgs, args);
    var h := Bindings(cls, args);
    var n := cls.setupArgs[i];
    HashOfFacts(z);
    HashRoleKeysDistinct(cls.setupArgs, args);
    BindingsAllocated(cls, args, heap);
    ConstructIsBindAll(cls, args, heap);
    BindAllValues(cls, h, map[], heap);
    assert z[i].0 == n;
    assert n in KeysOf(h);
    var j :| 0 <= j < |h| && h[j].0 == n;
    FindDistinct(h, j);
  }

  /** A successful construction binds every Hash entry. */
  lemma ConstructIsBindAll(cls: ContextClass, args: seq<Value>, heap: Heap)
    requires ArgsAllocated(heap, args)
    requires Construct(cls, args, heap).outcome.Ok?
    ensures AllAllocated(heap, Bindings(cls, args))
    ensures Construct(cls, args, heap) == BindAll(cls, Bindings(cls, args), map[], heap)
    ensures forall id :: id in heap ==>
              Construct(cls, args, heap).heap[id].casts
                == heap[id].casts + Added(cls, heap, Bindings(cls, args), id)
  {
    var h := Bindings(cls, args);
    BindingsAllocated(cls, args, heap);
    ConstructStopsAtFirstFailure(cls, args, heap);
    assert h[..|h|] == h;
  }

  /** Arguments past the declared roles are ignored. */
  lemma ConstructIgnoresExtraArgs(cls: ContextClass, args: seq<Value>, extra: seq<Value>, heap: Heap)
    requires ArgsAllocated(heap, args + extra)
    requires |args| >= |cls.setupArgs|
    ensures ArgsAllocated(heap, args)
    ensures Construct(cls, args + extra, heap) == Construct(cls, args, heap)
  {
    assert forall i :: 0 <= i < |args| ==> (args + extra)[i] == args[i];
    assert Zip(cls.setupArgs, args + extra) == Zip(cls.setupArgs, args);
    SameZipSameConstruct(cls, args + extra, args, heap);
  }

  /** Missing arguments behave exactly like explicit `nil`s. */
  lemma ConstructPadsWithNil(cls: ContextClass, args: seq<Value>, pad: seq<Value>, heap: Heap)
    requires ArgsAllocated(heap, args)
    requires forall i :: 0 <= i < |pad| ==> pad[i] == Nil
    ensures ArgsAllocated(heap, args + pad)
    ensures Construct(cls, args + pad, heap) == Construct(cls, args, heap)
  {
    var z := Zip(cls.setupArgs, args + pad);
    assert forall i :: 0 <= i < |cls.setupArgs| ==> ArgAt(args + pad, i) == ArgAt(args, i);
    assert z == Zip(cls.setupArgs, args);
    SameZipSameConstruct(cls, args + pad, args, heap);
  }

  /** Construction sees the arguments only through the zipped pairs. */
  lemma SameZipSameConstruct(cls: ContextClass, args: seq<Value>, args': seq<Value>, heap: Heap)
    requires ArgsAllocated(heap, args) && ArgsAllocated(heap, args')
    requires Zip(cls.setupArgs, args) == Zip(cls.setupArgs, args')
    ensures Construct(cls, args, heap) == Construct(cls, args', heap)
  {
    assert Bindings(cls, args) == Bindings(cls, args');
  }

  // ---------------------------------------------------------------------
  // role?

  /** `roles.values.include?(accessor)`: `accessor` is bound to some role. */
  predicate IsPlayer(ctx: Context, accessor: Value) {
    accessor in ctx.roles.Values
  }

  /** `roles.values.include?(accessor) && roles[name.to_s]`. */
  function RoleQuery(ctx: Context, name: Name, accessor: Value): (r: Value)
    // an object bound to no role is never recognised
    ensures !IsPlayer(ctx, accessor) ==> r == False
    // a truthy answer is always the player bound to the name
    ensures Truthy(r) ==> name.ToS() in ctx.roles && r == ctx.roles[name.ToS()]
  {
    if accessor in ctx.roles.Values then
      if name.ToS() in ctx.roles then ctx.roles[name.ToS()] else Nil
    else False
  }

  /** The query is truthy exactly when the candidate plays some role and the named role holds a truthy player. */
  lemma RoleQueryTruthy(ctx: Context, name: Name, accessor: Value)
    ensures Truthy(RoleQuery(ctx, name, accessor)) <==>
              IsPlayer(ctx, accessor) && name.ToS() in ctx.roles && Truthy(ctx.roles[name.ToS()])
  {
  }

  /** A Symbol and a String naming the same role give the same answer. */
  lemma RoleQuerySymbolOrString(ctx: Context, text: string, accessor: Value)
    ensures RoleQuery(ctx, Sym(text), accessor) == RoleQuery(ctx, Str(text), accessor)
  {
  }

  /** The object bound to a role is recognised under that role's name. */
  lemma RoleQueryBoundPlayer(ctx: Context, name: Name)
    requires name.ToS() in ctx.roles
    ensures RoleQuery(ctx, name, ctx.roles[name.ToS()]) == ctx.roles[name.ToS()]
  {
    assert ctx.roles[name.ToS()] in ctx.roles.Values;
  }

  /**
   The query does not check that the candidate plays the named role: the
   player of any role `a` is accepted for every role `b`, and the answer is
   `b`'s player.
   */
  lemma RoleQueryIgnoresWhichRole(ctx: Context, a: string, b: string)
    requires a in ctx.roles && b in ctx.roles
    ensures RoleQuery(ctx, Str(b), ctx.roles[a]) == ctx.roles[b]
  {
    assert ctx.roles[a] in ctx.roles.Values;
  }

  /**
   After a successful construction with distinct role names, the object passed
   for role `i` is recognised as playing role `i`.
   */
  lemma ConstructedPlayerIsRecognised(cls: ContextClass, args: seq<Value>, heap: Heap, i: nat)
    requires ArgsAllocated(heap, args)
    requires DistinctRoleNames(cls.setupArgs)
    requires i < |cls.setupArgs| && i < |args| && args[i].Ref?
    requires Construct(cls, args, heap).outcome.Ok?
    ensures RoleQuery(Construct(cls, args, heap).outcome.value, cls.setupArgs[i], args[i]) == args[i]
  {
    ConstructPositional(cls, args, heap);
    var ctx := Construct(cls, args, heap).outcome.value;
    assert ctx.roles[cls.setupArgs[i].ToS()] in ctx.roles.Values;
  }
}
