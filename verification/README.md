# Surrounded's context module: a Dafny model

This project models `lib/surrounded/context.rb` from an early version of the
Surrounded library. The library is a Data/Context/Interaction runtime for
Ruby. A context class declares role names with `setup`. Its constructor binds
plain objects ("players") to those roles and casts each player with the
behaviour module named after its role. The class also declares triggers:
interaction methods that run with the context pushed on a per-thread context
stack.

The model covers these parts of the file:

- `Context.classify_string` (module `Classify`). It rewrites a role name such as
  `source_account` into a constant name such as `SourceAccount`. The model
  follows Ruby's `gsub` scan, and a separate position-by-position definition
  describes the result.
- `Context.modify` (module `Casting`). It attaches a behaviour constant to a
  player. A Class is never attached. Otherwise the player's own `cast_as` is
  used when it has one, and `extend` when it does not. Both change the player
  object itself, so the model keeps the objects in a heap indexed by identity.
- The `initialize` generated by `setup`, and `role?` (module `Roles`).
  Construction zips role names with arguments and collects the pairs into a
  Hash. Then each player is cast in place and stored in the `roles` map under
  the role name as a string. An object passed for two roles is one object and
  ends up with both behaviours. `role?` checks whether a candidate is a player
  and returns the player bound to the named role.
- `trigger`, `store_trigger` and `triggers` (module `Triggers`). These are the
  registry of trigger names, the two methods each declaration defines (the
  private `trigger_<name>` holding the block and the public `<name>`), and
  the push/`ensure`-pop bracket on the context stack.

Module `Ruby` holds the small slice of Ruby's object model that these parts
use. It defines Symbol/String names, values (`nil`, `false` and references to
objects), objects with a "responds to `cast_as`" flag and a log of the attach
calls made on them, and the constants a context class can see. It also
defines the exceptions: `NameError`, `TypeError`, `NoMethodError`,
`ArgumentError` and whatever a trigger body raises.

Points where the code behaves in a way a reader might not expect:

- Line 18 reads `mod = klass.const_defined?(name) && !mod.is_a?(Class)`.
  Ruby parses this as an assignment of the whole `&&` expression, and the
  right-hand `mod` is still `nil` at that point. So the guard holds whenever
  the constant is defined. `modify` then leaves the player unchanged when the
  constant is a Class (line 73). The model implements this effective rule.
- Construction raises no error when the argument count does not match the
  role count. `zip` binds `nil` to missing arguments and drops extra ones.
- `role?(name, x)` does not check that `x` is bound to `name`. When `x` plays
  any role in the context, it returns the player bound to `name`
  (`Roles.RoleQueryIgnoresWhichRole`).
- Ruby's `^` matches at the start of every line, not only at the start of the
  string. So `classify_string` also upcases a lower-case letter that follows a
  newline.
- `const_defined?` raises `NameError` when the classified role name is not a
  valid constant name. This happens, for example, for the role `:__x`, which
  classifies to `_X`. Construction then fails with that error.
- A constant that is neither a Module nor a Class makes `extend` raise
  `TypeError`.
- `Hash#each` stops at the first entry whose binding raises, and that
  exception leaves `initialize`. The players bound before it stay cast,
  because casting changed them in place (`Roles.EarlierPlayerStaysCast`).
- `setup` defines a private reader for every role. A role named `class`,
  `roles` or `instance_variable_set` replaces the method of that name that
  `initialize` itself calls, so construction always raises. For `class`,
  `self.class` is refused as a private call with `NoMethodError` before any
  player is cast. For `roles`, the first player is cast and then the reader
  returns `nil`, which has no `[]=`. For `instance_variable_set`, the first
  player is cast and stored and then the reader is given two arguments
  (`ArgumentError`).
- `@triggers` is a Set, so `:go` and `"go"` are two distinct members. Both
  declarations define the same methods `go` and `trigger_go`, and the later
  body replaces the earlier one.
- The private body methods share one namespace with the triggers. After
  `trigger :x` and then `trigger :trigger_x`, calling `x` pushes the context
  twice and runs the block of `trigger_x`. In the other order, `trigger_x`
  becomes the private body of `x` and can no longer be called from outside.

## Model

| member | source | states |
|---|---|---|
| Classify.MatchAt | lib/surrounded/context.rb:69 | The result is the length of the match of `(?:^\|_)([a-z])` at the position: 1 for a lower-case letter at a line start, 2 for `_` followed by a lower-case letter, and 0 exactly when neither alternative matches. |
| Classify.ClassifyString | lib/surrounded/context.rb:68-70 | The rewritten name is never longer than the role name. |
| Classify.ClassifyIsPointwise | lib/surrounded/context.rb:68-70 | The left-to-right `gsub` equals the position-by-position rewrite. Every `_` directly before a lower-case letter is dropped, and every lower-case letter at a line start or after `_` is upcased. All other characters are kept, in order. |
| Classify.ClassifyLength | lib/surrounded/context.rb:68-70 | The output length is the input length minus the number of removed underscores. |
| Classify.ClassifySettled | lib/surrounded/context.rb:68-70 | The pattern matches nowhere in the output. The output does not start with `[a-z]`, and no `[a-z]` follows `_` or a newline. |
| Classify.ClassifyFixesNoMatch | lib/surrounded/context.rb:68-70 | A string in which the pattern finds no match comes back unchanged. |
| Classify.ClassifySnakeCase | lib/surrounded/context.rb:68-70 | A snake_case role name classifies to a name that starts with an upper-case letter and has only letters, digits and underscores. |
| Classify.ClassifyIdempotent | lib/surrounded/context.rb:68-70 | Classifying twice gives the same result as classifying once. |
| Casting.Modify | lib/surrounded/context.rb:72-79 | A Class changes nothing. Otherwise exactly one attachment is added to the player's own object, through `cast_as` if and only if the player responds to it. No other object changes, and no object is created or removed. The only failure is `TypeError`, from `extend` with a constant that is not a Module. |
| Roles.Zip | lib/surrounded/context.rb:13 | `zip` gives one pair per role name: the argument at the same position, or `nil` past the last argument. |
| Roles.HashOfFacts | lib/surrounded/context.rb:13 | `Hash[pairs]` holds each key once and has exactly the keys of the pairs. Each key maps to the value of its last pair. |
| Roles.HashOfDistinct | lib/surrounded/context.rb:13 | With distinct keys, `Hash[pairs]` holds the pairs unchanged and in order. |
| Roles.BindOne | lib/surrounded/context.rb:15-20 | Binding fails exactly for an invalid constant name, with `NameError` naming it, or for a non-module constant on a player without `cast_as`, with `TypeError`. On success only the player's object changes, gaining the role's behaviour. Nothing changes when no constant is defined or the constant is a Class. |
| Roles.SnakeCaseRoleNeverNameError | lib/surrounded/context.rb:15-18 | A role named by a snake_case identifier always gives a valid constant name, so its binding can only fail with `TypeError`. |
| Roles.BindAll | lib/surrounded/context.rb:13-24 | Binding fails if and only if some entry's binding fails, which is the same as the first failing position being before the end. A failure raises the exception of the first failing entry. On success the role map gains exactly the string forms of the entries' names. Either way, no object is created or removed. |
| Roles.BindAllHeap | lib/surrounded/context.rb:13-20 | Whether or not binding raises, each object ends up with its old behaviours followed by those of every entry before the first failing one that it was passed for, in binding order. |
| Roles.BindAllValues | lib/surrounded/context.rb:13-22 | With distinct role strings, each role holds exactly the object given for it. |
| Roles.Construct | lib/surrounded/context.rb:9-25 | After a successful construction, the keys of `roles` are exactly the declared role names converted to strings. No object is created or removed, even when construction raises. A role named `class`, `roles` or `instance_variable_set` always makes it raise, and a role named `class` raises `NoMethodError` before any player changes. |
| Roles.ConstructPositional | lib/surrounded/context.rb:9-24 | With distinct role names, role `i` holds argument `i` itself, or `nil` when fewer arguments were given. Construction fails exactly when a role shadows a method `initialize` calls or one of those bindings raises. On success each object carries its old behaviours followed by those of every role it was passed for. Without a shadowing role, a failure raises the exception of the first failing role, and the objects carry only the behaviours of the roles before it. |
| Roles.ConstructStopsAtFirstFailure | lib/surrounded/context.rb:13-24 | Without a shadowing role, construction raises exactly when some Hash entry's binding raises. It then raises the exception of the first such entry, and every object carries, after its old behaviours, those of the entries bound before that one. |
| Roles.ConstructShadowed | lib/surrounded/context.rb:9-23 | With a role named `roles` or `instance_variable_set` (and none named `class`), construction always raises. The exception is the first entry's binding error when that binding fails. Otherwise it is `NoMethodError` for `[]=` with a `roles` role, and `ArgumentError` without one. Only the first player can have gained a behaviour. |
| Roles.EarlierPlayerStaysCast | lib/surrounded/context.rb:13-24 | With a Module behind the first role and a constant that is not a Module behind the second, an object without `cast_as` for the second role makes construction raise `TypeError`. The first player keeps the behaviour it was extended with, and the second is unchanged. |
| Roles.AliasedPlayerCarriesBothBehaviours | lib/surrounded/context.rb:13-22 | One object passed for two Module-backed roles that shadow no method is stored under both roles, and that single object carries both behaviours, in declaration order. |
| Roles.ConstructLastArgumentWins | lib/surrounded/context.rb:13-22 | A role name declared twice is bound once, to the argument of its last occurrence. Objects are cast only for the entries left in the Hash. |
| Roles.ConstructIgnoresExtraArgs | lib/surrounded/context.rb:13 | Arguments past the declared roles do not change the result. |
| Roles.ConstructPadsWithNil | lib/surrounded/context.rb:13 | Missing arguments behave exactly like explicit `nil` arguments. |
| Roles.RoleQuery | lib/surrounded/context.rb:50-52 | A candidate bound to no role gets `false`. A truthy answer is always the player bound to the name as a string. |
| Roles.RoleQueryTruthy | lib/surrounded/context.rb:50-52 | The answer is truthy if and only if the candidate plays some role and the named role holds a truthy player. |
| Roles.RoleQuerySymbolOrString | lib/surrounded/context.rb:51 | A Symbol and a String with the same text give the same answer. |
| Roles.RoleQueryBoundPlayer | lib/surrounded/context.rb:51 | Asked about the player bound to a role, the query returns that player. |
| Roles.RoleQueryIgnoresWhichRole | lib/surrounded/context.rb:51 | The player of any role `a` is accepted when asking about any role `b`, and the answer is the player of `b`. |
| Roles.ConstructedPlayerIsRecognised | lib/surrounded/context.rb:50-52 | After construction, the object passed for a role is recognised under that role's name, even after behaviour was attached to it. |
| Triggers.Trigger | lib/surrounded/context.rb:35-42 | After the call the slot holds the array it held before, or an empty one if it was unset, whether the body returned or raised. The body's result reaches the caller unchanged. The body starts with its context pushed in front of the caller's stack, and every step sees the running context in front. |
| Triggers.Exec | lib/surrounded/context.rb:36-41 | A body, including every trigger it calls, leaves the stack as it found it, whether it returns, raises or rescues. It gives what the stack-free `Eval` gives. |
| Triggers.Dispatch | lib/surrounded/context.rb:31-42 | Sending a method leaves the stack as it was and gives what following the wrappers to a private body gives. Each public wrapper pushes its context, so every step sees the running context in front. |
| Triggers.ResolvedRaisesOnlyBodyErrors | lib/surrounded/context.rb:31-38 | When every wrapper has its private body method, a defined trigger fails only with an exception its block raised, never with `NoMethodError`. |
| Triggers.DeclareTrigger | lib/surrounded/context.rb:28-35 | Declaring adds the name to the trigger set, which grows by at most one and is unchanged for a name already declared. It defines the private `trigger_<name>` with the block and the public `<name>`, leaves every other method as it was, and keeps every wrapper's body method present. |
| Triggers.DeclaredTriggersAreListed | lib/surrounded/context.rb:45-47 | `triggers` lists exactly the names declared so far, and none before any declaration. |
| Triggers.DeclareTriggerIdempotent | lib/surrounded/context.rb:63-66 | Redeclaring a trigger with the same body changes nothing. |
| Triggers.SymbolAndStringTriggersShareAMethod | lib/surrounded/context.rb:29-35 | `:go` and `"go"` are two members of the trigger set but share the methods `go` and `trigger_go`, and the later body wins. |
| Triggers.InvokeTrigger | lib/surrounded/context.rb:33-42 | A name that is not a public trigger, either undeclared or a private body method, raises `NoMethodError` and leaves the stack slot untouched. A trigger returns or raises what sending it resolves to, restores the stack, and runs with the running context on top. |
| Triggers.DeclaredTriggerRuns | lib/surrounded/context.rb:28-42 | A trigger just declared under a Symbol or a String can be called by its string name. The call runs the declared body once, with the context pushed once. |
| Triggers.LaterTriggerCapturesBodyName | lib/surrounded/context.rb:31-38 | After `trigger :x` and then `trigger :trigger_x`, calling `x` runs the second block with the context pushed twice. |
| Triggers.EarlierTriggerLosesItsWrapper | lib/surrounded/context.rb:31-35 | After `trigger :trigger_x` and then `trigger :x`, `trigger_x` stays in the trigger set, but calling it raises `NoMethodError`, and `x` runs its own block. |

## Left out

- `Thread.current[:context]` is an explicit argument and result (`Option<seq<nat>>`). Other threads and concurrency are not modelled.
- Ruby metaprogramming is not modelled as such. `define_method`, `attr_reader`, `private`, `instance_variable_set` and `send` are replaced by plain functions over a context record and a table of trigger methods. The instance variable that `initialize` sets holds the same object as the `roles` entry, so it is not modelled separately.
- Trigger arguments (`*args` passed on to `define_method`) are not modelled. Trigger bodies take no arguments.
- A trigger body is given as an unfolded script (`Triggers.Body`): return, raise, or call a trigger on another context with or without `rescue`. A call inside a body runs the callee's block with a single push, as a freshly declared trigger does; it does not look the callee up in a method table. Arbitrary Ruby code in a body, including code that alters the thread's stack directly, is not modelled.
- The trigger method table holds only the methods `trigger` defines. A trigger named like another method of the class, such as `roles`, is not modelled.
- Triggers.InvokeTrigger: does not model a role named `send`. Its reader replaces `send`, so every trigger's wrapper would fail when it sends `trigger_<name>`; the trigger table does not know the role names.
- Role readers that replace methods other than `class`, `roles` and `instance_variable_set` are not modelled, and neither is the `NameError` that `attr_reader` raises in `setup` for a role name that is not a valid method name. The model takes the declared names as given.
- Roles.Construct: models the `class` role as Ruby before 2.7 runs it, where `self.class` on a private reader raises `NoMethodError` for `class`. Ruby 2.7 and later call the reader, get `nil`, and raise `NoMethodError` for `const_defined?`. Either way, nothing is cast.
- `triggers` before any trigger was declared calls `nil.dup`, whose result depends on the Ruby version. The model starts from an empty set.
- `triggers` returns a copy. In this value model every returned set is already independent of the stored one, so no member states this.
- Method lookup through `extend` and `cast_as` is not modelled. An object records the attach calls made on it: which constant and how, oldest first. This log is not the ancestor chain. Extending an object again with a module it already has adds a log entry, although Ruby's ancestors do not change. `cast_as` is assumed to return the player itself, and exceptions that it raises are not modelled.
- Extending `nil` or `false` changes `NilClass` or `FalseClass` for the whole process. The model keeps only the fact that the value itself comes back unchanged.
- `extend` raises on frozen objects and immediates such as Integers and Symbols. This is not modelled, because values have no such variants.
- `const_defined?`/`const_get` lookup through ancestors, top-level constants and autoload is abstracted into a single map of visible constants. A constant name that starts with a non-ASCII capital letter is treated as invalid.
- Players that override `==` are not modelled. Equality in `role?` is object identity.
- `Context.extended`, which includes `InstanceMethods`, is declaration glue and is not modelled.
- Roles.ConstructPositional: stated only for role names whose string forms are distinct. With duplicate names, the positional reading does not hold; `Roles.ConstructLastArgumentWins` covers that case.
- Roles.ConstructLastArgumentWins: stated only when no Symbol role name shares its text with a String role name. In that case Hash order decides which of the two bindings survives, and the model computes it but no lemma states it.
- Roles.AliasedPlayerCarriesBothBehaviours: stated for two roles backed by Modules and an object without `cast_as`. Other combinations follow from `Roles.ConstructPositional` and `Roles.BindOne`.
- Classify.ClassifyString: its own contract is only a length bound. The full description of the result is in the lemmas `ClassifyIsPointwise`, `ClassifyLength`, `ClassifySettled` and `ClassifyIdempotent`.
