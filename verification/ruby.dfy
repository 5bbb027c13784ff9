/**
 The slice of Ruby's object model that the context engine touches: role and
 trigger names (a Symbol or a String), player values, the constants a context
 class can see, and the exceptions the engine can raise.
 */
module Ruby {

  /** A role or trigger name as written in `setup`/`trigger`: a Symbol or a String. */
  datatype Name = Sym(text: string) | Str(text: string) {
    /** `to_s`: a Symbol and a String with the same characters give the same string. */
    function ToS(): string {
      text
    }
  }

  /** What a constant visible from the context class refers to. */
  datatype Const =
    | ModuleConst(moduleId: nat)   // a Module that is not a Class
    | ClassConst(classId: nat)     // a Class
    | PlainConst                   // any other value (a number, a string, ...)

  /** How a behaviour was attached to a player. */
  datatype Via = CastAs | Extend

  /** One attachment of a behaviour constant to a player. */
  datatype Cast = Cast(via: Via, behaviour: Const)

  /**
   A Ruby value bound to a role. `Ref` is a reference to an ordinary object;
   two references are the same object exactly when they are equal, which is
   the default `==`.
   */
  datatype Value =
    | Nil
    | False
    | Ref(id: nat)

  /**
   The state of an ordinary object: whether it responds to `cast_as`, and the
   log of attach calls made on it so far, oldest first. The log is not the
   object's ancestor chain: extending an object again with a module it already
   has adds an entry here although Ruby's ancestors stay as they were.
   Attaching a behaviour changes the object in place, so every reference to
   it sees the change.
   */
  datatype Object = Object(castable: bool, casts: seq<Cast>)

  /** The objects in existence, by identity. */
  type Heap = map<nat, Object>

  /** The value is `nil`, `false`, or refers to an object that exists. */
  predicate Allocated(heap: Heap, v: Value) {
    v.Ref? ==> v.id in heap
  }

  /** Ruby truthiness: everything except `nil` and `false`. */
  predicate Truthy(v: Value) {
    !v.Nil? && !v.False?
  }

  /**
   Two heaps hold the same objects with the same `cast_as` support; only
   attached behaviours may differ.
   */
  predicate SameShape(before: Heap, after: Heap) {
    && before.Keys == after.Keys
    && forall id :: id in before ==> after[id].castable == before[id].castable
  }

  /** Exceptions the engine raises or lets through. */
  datatype Error =
    | NameError(constName: string)   // `const_defined?` given an invalid constant name
    | TypeError                      // `extend` given something that is not a Module
    | NoMethodError(methodName: string)  // a missing or private method was called
    | ArgumentError                  // a method was called with the wrong number of arguments
    | Raised(tag: nat)               // anything a trigger body raises

  /**
   Whether `const_defined?` accepts the string as a constant name: an upper-case
   ASCII letter followed by letters, digits, underscores or non-ASCII characters.
   Any other string makes it raise NameError.
   */
  predicate ValidConstName(s: string) {
    && |s| > 0
    && 'A' <= s[0] <= 'Z'
    && forall i :: 1 <= i < |s| ==> ConstNameChar(s[i])
  }

  predicate ConstNameChar(c: char) {
    'A' <= c <= 'Z' || 'a' <= c <= 'z' || '0' <= c <= '9' || c == '_' || c as int >= 128
  }

  datatype Option<+T> = None | Some(value: T)

  datatype Result<+T> = Ok(value: T) | Err(error: Error)
}
