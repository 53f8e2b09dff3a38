/** The snapshot-and-diff rule that ScopeSpace.__exit__ applies to a binding
    table, stated on values.

    `backup` is the table as it was when the block was entered, `after` the
    table as the block left it, and `self` the namespace object that the
    `with ... as` clause handed to the block. Values are compared by object
    identity, which for a Dafny value is equality. */
module BindingDiff {

  type Name = string

  /** What the exit loop does with one entry of the post-block table, in the
      order in which the source tests the cases. */
  datatype Disposition =
    | NamespaceSelf  // bound to the namespace object itself: skipped
    | New            // not in the backup: moved into the namespace, deleted from the table
    | Rebound        // bound to a different object than in the backup: captured, backup restored
    | Unchanged      // still bound to the backed-up object: left alone

  function Classify<V(==)>(backup: map<Name, V>, key: Name, val: V, self: V): Disposition
  {
    if val == self then NamespaceSelf
    else if key !in backup then New
    else if val != backup[key] then Rebound
    else Unchanged
  }

  /** The entries the exit loop writes into the namespace: every new or
      rebound name, with the object the block left it bound to. */
  function Captured<V(==)>(backup: map<Name, V>, after: map<Name, V>, self: V): map<Name, V>
  {
    map k | k in after && Classify(backup, k, after[k], self) in {New, Rebound} :: after[k]
  }

  /** The binding table once the exit loop has run: new names are gone,
      rebound names hold their backed-up object again, everything else is as
      the block left it. */
  function Restored<V(==)>(backup: map<Name, V>, after: map<Name, V>, self: V): map<Name, V>
  {
    map k | k in after && Classify(backup, k, after[k], self) != New ::
      if Classify(backup, k, after[k], self) == Rebound then backup[k] else after[k]
  }

  /** The binding delta of two snapshots, defined independently of the exit
      loop: names that appear only afterwards, and names bound in both to
      different objects. */
  function Delta<V(==)>(before: map<Name, V>, after: map<Name, V>): set<Name>
  {
    set k | k in after && (k !in before || after[k] != before[k])
  }

  /** `m1` and `m2` bind `k` alike: both leave it unbound or both bind it to
      the same object. */
  predicate AgreeAt<V(==)>(m1: map<Name, V>, m2: map<Name, V>, k: Name)
  {
    (k in m1 <==> k in m2) && (k in m1 ==> m1[k] == m2[k])
  }

  // ---------------------------------------------------------------------
  // The exit loop, one entry at a time.

  /** The binding table and the namespace's attributes as the exit loop
      updates them. */
  datatype Effects<V> = Effects(table: map<Name, V>, attrs: map<Name, V>)

  /** One iteration of the exit loop on the entry `key` of the post-block
      snapshot `after`. It touches no other name. */
  function Step<V(==)>(backup: map<Name, V>, after: map<Name, V>, self: V, e: Effects<V>, key: Name): (r: Effects<V>)
    requires key in after
    ensures forall k :: k != key ==> AgreeAt(r.table, e.table, k) && AgreeAt(r.attrs, e.attrs, k)
  {
    match Classify(backup, key, after[key], self)
    case New => Effects(e.table - {key}, e.attrs[key := after[key]])
    case Rebound => Effects(e.table[key := backup[key]], e.attrs[key := after[key]])
    case _ => e
  }

  /** The exit loop after it has walked the entries `keys` of `after`, in
      that order, starting from the table `after` and the attributes `attrs`.
      Entries it has not walked yet are untouched. */
  function Walk<V(==)>(backup: map<Name, V>, after: map<Name, V>, self: V, attrs: map<Name, V>, keys: seq<Name>): (e: Effects<V>)
    requires forall i :: 0 <= i < |keys| ==> keys[i] in after
    ensures forall k :: k !in keys ==> AgreeAt(e.table, after, k) && AgreeAt(e.attrs, attrs, k)
  {
    if keys == [] then Effects(after, attrs)
    else
      var prefix := keys[..|keys| - 1];
      assert keys == prefix + [keys[|keys| - 1]];
      Step(backup, after, self, Walk(backup, after, self, attrs, prefix), keys[|keys| - 1])
  }

  /** Every name occurs at most once in `keys`. */
  predicate Distinct(keys: seq<Name>)
  {
    forall i, j :: 0 <= i < j < |keys| ==> keys[i] != keys[j]
  }

  /** Walking the entries `keys` settles exactly those entries: each walked
      name is bound in the table and in the namespace as the reference diff
      says, whatever the order of the walk. */
  lemma {:induction false} WalkSettlesWalkedKeys<V>(backup: map<Name, V>, after: map<Name, V>, self: V, attrs: map<Name, V>, keys: seq<Name>)
    requires forall i :: 0 <= i < |keys| ==> keys[i] in after
    requires Distinct(keys)
    ensures forall k :: k in keys ==>
              && AgreeAt(Walk(backup, after, self, attrs, keys).table, Restored(backup, after, self), k)
              && AgreeAt(Walk(backup, after, self, attrs, keys).attrs, attrs + Captured(backup, after, self), k)
  {
    if keys != [] {
      var p, x := keys[..|keys| - 1], keys[|keys| - 1];
      assert forall i :: 0 <= i < |p| ==> p[i] == keys[i];
      assert x !in p;
      WalkSettlesWalkedKeys(backup, after, self, attrs, p);
      var e := Walk(backup, after, self, attrs, p);
      assert AgreeAt(e.table, after, x) && AgreeAt(e.attrs, attrs, x);
      forall k | k in keys
        ensures AgreeAt(Walk(backup, after, self, attrs, keys).table, Restored(backup, after, self), k)
        ensures AgreeAt(Walk(backup, after, self, attrs, keys).attrs, attrs + Captured(backup, after, self), k)
      {
        if k != x {
          assert k in p;
        }
      }
    }
  }

  /** Walking every entry of the snapshot once, in any order, yields the
      reference diff: the restored table and the captured names added to the
      namespace. */
  lemma {:induction false} WalkAllIsDiff<V>(backup: map<Name, V>, after: map<Name, V>, self: V, attrs: map<Name, V>, keys: seq<Name>)
    requires forall i :: 0 <= i < |keys| ==> keys[i] in after
    requires Distinct(keys)
    requires forall k :: k in after ==> k in keys
    ensures Walk(backup, after, self, attrs, keys) == Effects(Restored(backup, after, self), attrs + Captured(backup, after, self))
  {
    var e := Walk(backup, after, self, attrs, keys);
    var r, a := Restored(backup, after, self), attrs + Captured(backup, after, self);
    WalkSettlesWalkedKeys(backup, after, self, attrs, keys);
    forall k
      ensures (k in e.table <==> k in r) && (k in e.attrs <==> k in a)
      ensures AgreeAt(e.table, r, k) && AgreeAt(e.attrs, a, k)
    {
      if k !in keys {
        assert k !in after;
      }
    }
  }

  // ---------------------------------------------------------------------
  // The four cases of the loop, one lemma each.

  /** A name the block introduced (and did not bind to the namespace) ends up
      in the namespace with its block value and is gone from the table. */
  lemma NewNameMoved<V>(backup: map<Name, V>, after: map<Name, V>, self: V, k: Name)
    requires k in after && k !in backup && after[k] != self
    ensures k in Captured(backup, after, self) && Captured(backup, after, self)[k] == after[k]
    ensures k !in Restored(backup, after, self)
  {
  }

  /** A name the block rebound to another object: the new object goes into
      the namespace and the table holds the backed-up object again. */
  lemma ReboundNameRestored<V>(backup: map<Name, V>, after: map<Name, V>, self: V, k: Name)
    requires k in after && k in backup && after[k] != backup[k] && after[k] != self
    ensures k in Captured(backup, after, self) && Captured(backup, after, self)[k] == after[k]
    ensures k in Restored(backup, after, self) && Restored(backup, after, self)[k] == backup[k]
  {
  }

  /** A name still bound to the very object it had on entry is neither
      captured nor touched, even if that object was mutated in place. */
  lemma SameObjectLeftAlone<V>(backup: map<Name, V>, after: map<Name, V>, self: V, k: Name)
    requires k in after && k in backup && after[k] == backup[k]
    ensures k !in Captured(backup, after, self)
    ensures k in Restored(backup, after, self) && Restored(backup, after, self)[k] == backup[k]
  {
  }

  /** A name bound to the namespace object (the `as` target among them) is
      skipped: it stays in the table and is not added to the namespace. */
  lemma NamespaceBindingSkipped<V>(backup: map<Name, V>, after: map<Name, V>, self: V, k: Name)
    requires k in after && after[k] == self
    ensures k !in Captured(backup, after, self)
    ensures k in Restored(backup, after, self) && Restored(backup, after, self)[k] == self
  {
  }

  /** A name the block deleted is neither restored nor captured: the loop only
      walks the post-block table. */
  lemma DeletedNameStaysDeleted<V>(backup: map<Name, V>, after: map<Name, V>, self: V, k: Name)
    requires k !in after
    ensures k !in Captured(backup, after, self) && k !in Restored(backup, after, self)
  {
  }

  // ---------------------------------------------------------------------
  // Whole-table properties.

  /** The namespace receives exactly the binding delta, less the names bound
      to the namespace itself, each with its post-block object. */
  lemma CapturedIsDelta<V>(backup: map<Name, V>, after: map<Name, V>, self: V)
    ensures Captured(backup, after, self).Keys
         == Delta(backup, after) - set k | k in after && after[k] == self
    ensures forall k :: k in Captured(backup, after, self) ==> Captured(backup, after, self)[k] == after[k]
  {
  }

  /** Isolation: after exit every name in the table was either backed up on
      entry or is bound to the namespace, and every backed-up name that is
      still there holds its backed-up object unless the block bound it to the
      namespace. */
  lemma ExitIsolates<V>(backup: map<Name, V>, after: map<Name, V>, self: V)
    ensures forall k :: k in Restored(backup, after, self) ==>
              k in backup || Restored(backup, after, self)[k] == self
    ensures forall k :: k in Restored(backup, after, self) && k in backup ==>
              Restored(backup, after, self)[k] == (if after[k] == self then self else backup[k])
  {
  }

  /** The table after exit, described without the loop: the backup limited to
      the names the block did not delete, overridden by the names bound to
      the namespace. */
  lemma RestoredIsBackupOnSurvivors<V>(backup: map<Name, V>, after: map<Name, V>, self: V)
    ensures Restored(backup, after, self)
         == (map k | k in after && k in backup :: backup[k])
          + (map k | k in after && after[k] == self :: self)
  {
  }

  /** Nothing the block bound is lost: overlaying the captured entries on the
      restored table gives back the post-block table. */
  lemma NothingLost<V>(backup: map<Name, V>, after: map<Name, V>, self: V)
    ensures Restored(backup, after, self) + Captured(backup, after, self) == after
  {
  }

  /** Captured and restored agree with each other: a name is in both exactly
      when it was rebound, and then the two hold different objects. */
  lemma CapturedAndRestoredOverlapOnRebound<V>(backup: map<Name, V>, after: map<Name, V>, self: V, k: Name)
    ensures (k in Captured(backup, after, self) && k in Restored(backup, after, self))
        <==> (k in after && Classify(backup, k, after[k], self) == Rebound)
    ensures k in Captured(backup, after, self) && k in Restored(backup, after, self) ==>
              Captured(backup, after, self)[k] != Restored(backup, after, self)[k]
  {
  }

  /** A block that binds nothing new and rebinds nothing captures nothing and
      leaves the table as it was. */
  lemma EmptyBlockCapturesNothing<V>(backup: map<Name, V>, self: V)
    ensures Captured(backup, backup, self) == map[]
    ensures Restored(backup, backup, self) == backup
  {
  }

  /** Exiting a second time with the same backup finds nothing more to
      capture and changes nothing: the restored table has no delta left. */
  lemma ExitIsIdempotent<V>(backup: map<Name, V>, after: map<Name, V>, self: V)
    ensures Captured(backup, Restored(backup, after, self), self) == map[]
    ensures Restored(backup, Restored(backup, after, self), self) == Restored(backup, after, self)
  {
  }

  /** Two blocks run one after the other, the second starting from the table
      the first restored: a name introduced by both lands in each namespace
      with that block's own object, and in neither table afterwards. */
  lemma SequentialBlocksIndependent<V>(
    backup1: map<Name, V>, after1: map<Name, V>, self1: V,
    after2: map<Name, V>, self2: V, x: Name)
    requires x !in backup1
    requires x in after1 && after1[x] != self1
    requires x in after2 && after2[x] != self2
    ensures Captured(backup1, after1, self1)[x] == after1[x]
    ensures Captured(Restored(backup1, after1, self1), after2, self2)[x] == after2[x]
    ensures x !in Restored(Restored(backup1, after1, self1), after2, self2)
  {
  }
}
