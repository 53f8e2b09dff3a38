/** The `ScopeSpace` context manager: `__enter__` snapshots the module's
    global binding table and hands out a fresh namespace, `__exit__` walks the
    table as the block left it and moves every new or rebound name into that
    namespace, deleting or restoring it in the table. */
module Scopespace {
  import opened BindingDiff

  /** A Python object, compared by identity (`is`). Namespace objects are
      objects too, so a name can be bound to one. */
  datatype Ref = Obj(id: nat) | Space(ns: Namespace)

  datatype Option<T> = None | Some(value: T)

  datatype Error = ValueError(message: string)

  datatype Result<T> = Ok(value: T) | Err(error: Error)

  const FunctionFrameMessage := "ScopeSpace cannot be used inside functions."

  /** A `types.SimpleNamespace`: a mutable set of named attributes. */
  class Namespace {
    var attrs: map<Name, Ref>

    constructor ()
      ensures attrs == map[]
    {
      attrs := map[];
    }

    /** `setattr(namespace, key, val)`. */
    method SetAttr(key: Name, val: Ref)
      modifies this
      ensures attrs == old(attrs)[key := val]
    {
      attrs := attrs[key := val];
    }
  }

  /** The module's global binding table, the dictionary `globals()` returns.
      The block's own assignments and deletions change it directly. */
  class Globals {
    var table: map<Name, Ref>

    constructor (initial: map<Name, Ref>)
      ensures table == initial
    {
      table := initial;
    }
  }

  class ScopeSpace {
    /** The table `globals()` refers to inside the defining module. */
    const globals: Globals
    /** Unset (null) until `Enter` has run. */
    var namespace: Namespace?
    /** Unset (None) until `Enter` has passed its frame check. */
    var contextBackup: Option<map<Name, Ref>>

    constructor (g: Globals)
      ensures globals == g && namespace == null && contextBackup == None
    {
      globals := g;
      namespace := null;
      contextBackup := None;
    }

    /** Ready for `Exit`: `Enter` has run to the end. */
    predicate Entered()
      reads this
    {
      namespace != null && contextBackup.Some?
    }

    /** `__enter__`. `atModuleLevel` says whether the calling frame is the
        module's own frame. The namespace is created before the frame check,
        so a rejected call still replaces it; the backup is taken only after
        the check. */
    method Enter(atModuleLevel: bool) returns (r: Result<Namespace>)
      modifies this
      ensures namespace != null && fresh(namespace) && namespace.attrs == map[]
      ensures Space(namespace) !in globals.table.Values
      ensures atModuleLevel ==> r.Ok? && r.value == namespace && contextBackup == Some(globals.table)
      ensures !atModuleLevel ==> r == Err(ValueError(FunctionFrameMessage)) && contextBackup == old(contextBackup)
      ensures globals.table == old(globals.table)
    {
      namespace := new Namespace();
      if !atModuleLevel {
        return Err(ValueError(FunctionFrameMessage));
      }
      contextBackup := Some(globals.table);
      return Ok(namespace);
    }

    /** `__exit__`. `exception` is what the block raised, if anything; the
        cleanup runs the same either way, and the result (Python's `None`)
        never asks for the exception to be suppressed. */
    method Exit(exception: Option<string>) returns (suppress: bool)
      requires Entered()
      modifies globals, namespace
      ensures !suppress
      ensures globals.table == Restored(contextBackup.value, old(globals.table), Space(namespace))
      ensures namespace.attrs == old(namespace.attrs) + Captured(contextBackup.value, old(globals.table), Space(namespace))
    {
      var ns, backup := namespace, contextBackup.value;
      var newContext := globals.table;
      var remaining := newContext.Keys;
      ghost var visited: seq<Name> := [];
      while remaining != {}
        invariant remaining == newContext.Keys - set k | k in visited
        invariant forall i :: 0 <= i < |visited| ==> visited[i] in newContext
        invariant Distinct(visited)
        invariant Walk(backup, newContext, Space(ns), old(ns.attrs), visited) == Effects(globals.table, ns.attrs)
        decreases remaining
      {
        var key :| key in remaining;
        var val := newContext[key];
        // No earlier iteration touched `key`: it is still bound to `val`.
        assert AgreeAt(globals.table, newContext, key);
        if val == Space(ns) {
        } else if key !in backup {
          ns.SetAttr(key, val);
          assert key in globals.table;  // so the deletion cannot fail
          globals.table := globals.table - {key};
        } else if val != backup[key] {
          ns.SetAttr(key, val);
          globals.table := globals.table[key := backup[key]];
        }
        visited := visited + [key];
        remaining := remaining - {key};
      }
      forall k | k in newContext ensures k in visited {
        assert k !in remaining;
      }
      WalkAllIsDiff(backup, newContext, Space(ns), old(ns.attrs), visited);
      suppress := false;
    }
  }
}
