# ScopeSpace: a scoped namespace for module-level code

`ScopeSpace` is a Python context manager. It works on the global table of
the module that defines it, the one `globals()` returns inside
scopespace.py. A `with ScopeSpace() as ns:` block may write to that table.
If it does, the names it assigned do not stay there: once the block ends
they are reachable only as attributes of `ns`.

- `__enter__` first creates a fresh, empty namespace and stores it in
  `self.namespace`. It then refuses to go on anywhere but at module level
  (`ValueError("ScopeSpace cannot be used inside functions.")`). Past that
  check it copies the global name→object table into `context_backup`.
- `__exit__` takes a second copy of the table and walks it. It skips every
  entry bound to the namespace itself. A name missing from the backup is
  moved into the namespace and deleted from the table. A name bound to a
  different object than in the backup (identity, `is not`) has the new
  object put into the namespace and the backed-up object put back in the
  table. Everything else is left alone. `__exit__` returns `None`, so an
  exception raised in the block still propagates, after the cleanup.

The project has three modules.

- `BindingDiff` (BindingDiff.dfy) states the diff on values.
  - `Classify` gives the four cases in the order the source tests them.
  - `Captured` and `Restored` are the reference outcome: what ends up in
    the namespace and what the table holds afterwards.
  - `Step` and `Walk` are the loop itself, one entry at a time, in
    iteration order.
  - The lemmas prove that walking every entry once, in any order, gives the
    reference outcome. Further lemmas state what that outcome means.
- `Scopespace` (Scopespace.dfy) holds the classes.
  - `Globals` is the module's binding table, a mutable map shared by every
    `ScopeSpace`.
  - `Namespace` is the `SimpleNamespace`, a mutable attribute map.
  - `ScopeSpace` has the fields `namespace` and `contextBackup`.
  - `Enter` and `Exit` are imperative methods. `Exit` keeps the source's
    loop, and its invariant ties the state to `Walk` over the keys visited
    so far.
- `ScopespaceDemo` (Demo.dfy) replays the module's own demonstration
  against the contracts of `Enter` and `Exit`.

Object identity is modelled by the datatype `Ref`. It is either an opaque
object `Obj(id)` or a namespace `Space(ns)`. Two references are the same
object exactly when they are equal.

Four consequences of the code are worth stating plainly:
- A rebound name gets its backed-up object back.
- Entries bound to the namespace are skipped.
- Names deleted in the block are not restored.
- The only error is the `ValueError` of `__enter__`'s frame check.

`Globals.constructor` only builds a table for clients such as Demo.dfy. It
models nothing in scopespace.py and has no row below.

## Model

| member | source | states |
|---|---|---|
| `Scopespace.ScopeSpace.constructor` | scopespace.py:36-37 | A new manager has neither a namespace nor a backup yet, and it is tied to the module's table. |
| `Scopespace.ScopeSpace.Enter` | scopespace.py:39-46 | The namespace is always replaced by a fresh, empty one that no global name is bound to, even when the check then rejects the call. Outside module level the result is the `ValueError` with the source's message and the backup is unchanged. At module level the result is the new namespace and the backup equals the table at entry. The table itself is not changed. |
| `Scopespace.ScopeSpace.Exit` | scopespace.py:48-71 | The new table is `Restored(backup, table at exit, namespace)`. The namespace gains exactly `Captured(...)` on top of its earlier attributes. The result never suppresses the block's exception, and the cleanup does not depend on that exception. A `del` in the loop never misses its key. |
| `Scopespace.Namespace.constructor` | scopespace.py:40 | A new namespace has no attributes. |
| `Scopespace.Namespace.SetAttr` | scopespace.py:66 | `setattr` binds one attribute and leaves the others. |
| `BindingDiff.Step` | scopespace.py:62-71 | One iteration of the loop changes the table and the namespace only at its own key. |
| `BindingDiff.Walk` | scopespace.py:61-71 | While the loop walks the snapshot, each entry it has not reached yet is as the block left it, in the table and in the namespace. |
| `BindingDiff.WalkSettlesWalkedKeys` | scopespace.py:61-71 | Every entry the loop has visited, in whatever order, already has its final binding in the table and in the namespace. |
| `BindingDiff.WalkAllIsDiff` | scopespace.py:61-71 | Visiting every entry of the snapshot exactly once, in any order, gives the restored table and adds the captured names to the namespace. The result does not depend on dict order. |
| `BindingDiff.NewNameMoved` | scopespace.py:65-67 | A name absent from the backup and not bound to the namespace is captured with its block object and is absent from the table afterwards. |
| `BindingDiff.ReboundNameRestored` | scopespace.py:68-71 | A name rebound to a different object is captured with the new object. The table again holds exactly the backed-up object. |
| `BindingDiff.SameObjectLeftAlone` | scopespace.py:65-71 | A name still bound to its backed-up object is not captured and keeps that object. Mutating the object in place, as in `x.append(4)`, is therefore invisible. |
| `BindingDiff.NamespaceBindingSkipped` | scopespace.py:63-64 | A name bound to the namespace object, such as the `as` target, stays in the table bound to it and is not captured. |
| `BindingDiff.DeletedNameStaysDeleted` | scopespace.py:61-62 | A name deleted inside the block is neither restored in the table nor captured. |
| `BindingDiff.CapturedIsDelta` | scopespace.py:54-71 | The captured names are exactly the binding delta minus the names bound to the namespace, each with its post-block object. |
| `BindingDiff.ExitIsolates` | scopespace.py:61-71 | After exit every name in the table was backed up or is bound to the namespace. Every backed-up name still present holds its backed-up object, unless the block bound it to the namespace. |
| `BindingDiff.RestoredIsBackupOnSurvivors` | scopespace.py:61-71 | The table after exit equals the backup cut down to the names the block did not delete, overridden by the names bound to the namespace. |
| `BindingDiff.NothingLost` | scopespace.py:61-71 | Overlaying the captured entries on the restored table gives back exactly the table the block left. No binding is lost. |
| `BindingDiff.CapturedAndRestoredOverlapOnRebound` | scopespace.py:68-71 | A name is both captured and still in the table exactly when it was rebound. In that case the namespace and the table hold different objects for it. |
| `BindingDiff.EmptyBlockCapturesNothing` | scopespace.py:61-71 | A block that changes no binding captures nothing and leaves the table as it was. |
| `BindingDiff.ExitIsIdempotent` | scopespace.py:61-71 | Running the exit diff again on the restored table, with the same backup, captures nothing and changes nothing. |
| `BindingDiff.SequentialBlocksIndependent` | scopespace.py:45-71 | Take two blocks run one after the other, each introducing the same name. Each namespace gets its own block's object, and neither leaves the name in the table. |

## Left out

- The frame check (`inspect.currentframe().f_back` and the `<module>` name test) is runtime reflection. It is the boolean input `atModuleLevel` of `Enter`.
- Which dictionary `globals()` returns is interpreter behaviour. Inside scopespace.py it is that module's own table. The model takes the shared table as the `Globals` object given to the constructor.
- Blocks that write a different table are not modelled. Take a block at the top level of a module that imports `ScopeSpace`. Its frame is also named `<module>`, so it passes the check. But it assigns into its own module's table, not the one `ScopeSpace` snapshots and diffs. So nothing is captured, and the block's names stay in the importing module. The model's isolation guarantees hold only for a block that writes the `Globals` table its `ScopeSpace` was given.
- `types.SimpleNamespace` is modelled as an attribute map. Its attribute-access and display machinery is not modelled.
- Python objects are opaque references compared by identity. Their contents and mutation are not modelled, so `x.append(4)` is simply no change to the table.
- Dict iteration order is not modelled. `Exit` visits the keys in an arbitrary order, and `WalkAllIsDiff` proves that every order gives the same result.
- Scopespace.ScopeSpace.Exit: requires that `Enter` has passed its frame check, as the `with` statement guarantees. A direct `__exit__` call on a fresh object, which fails in Python with `AttributeError`, is not modelled.
- Scopespace.ScopeSpace.Exit: the three exception arguments are one optional value. The source never reads them. The traceback is not modelled.
- The demonstration under `if __name__ == '__main__'` is not modelled as code. Demo.dfy checks its documented outcomes against the contracts.
- There is no concurrency in the source, and the model has none.
