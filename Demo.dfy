/** `with ScopeSpace() as ...` blocks at module level, as in the
    demonstration at the end of scopespace.py, checked against the contracts
    of `Enter` and `Exit` alone. Lists are opaque objects here: appending to
    one keeps its identity, `x2 + [4]` makes a new one. */
module ScopespaceDemo {
  import opened BindingDiff
  import opened Scopespace

  /** x = [1, 2, 3]; with ScopeSpace() as test: x.append(4) */
  method MutationIsNotCaptured()
  {
    var g := new Globals(map["x" := Obj(1)]);
    var s := new ScopeSpace(g);
    var r := s.Enter(true);
    var ns := r.value;
    g.table := g.table["test" := Space(ns)];
    var before, after := map["x" := Obj(1)], g.table;
    assert s.contextBackup == Some(before);
    var suppress := s.Exit(None);
    SameObjectLeftAlone(before, after, Space(ns), "x");
    NamespaceBindingSkipped(before, after, Space(ns), "test");
    assert !suppress;
    assert g.table["x"] == Obj(1);       // x is still the same list
    assert "x" !in ns.attrs;             // test.x is an AttributeError
    assert g.table["test"] == Space(ns);
  }

  /** x2 = [1, 2, 3]
      with ScopeSpace() as test2: x2.append(99); x2 = x2 + [4]; b = 10
      where the block then raises. */
  method RebindAndNewName(earlier: Namespace)
  {
    var before := map["test" := Space(earlier), "x2" := Obj(2)];
    var g := new Globals(before);
    var s := new ScopeSpace(g);
    var r := s.Enter(true);
    var ns := r.value;
    g.table := g.table["test2" := Space(ns)]["x2" := Obj(3)]["b" := Obj(10)];
    var after := g.table;
    var suppress := s.Exit(Some("block error"));
    ReboundNameRestored(before, after, Space(ns), "x2");
    NewNameMoved(before, after, Space(ns), "b");
    SameObjectLeftAlone(before, after, Space(ns), "test");
    assert !suppress;                    // the block's exception propagates
    assert g.table["x2"] == Obj(2);      // print(x2): the list from before the block
    assert ns.attrs["x2"] == Obj(3);     // print(test2.x2): the new list
    assert ns.attrs["b"] == Obj(10);     // print(test2.b)
    assert "b" !in g.table;              // print(b): NameError
    assert g.table["test"] == Space(earlier) && "test" !in ns.attrs;
  }

  /** A ScopeSpace entered from inside a function is refused. */
  method FunctionFrameRejected(g: Globals)
  {
    var s := new ScopeSpace(g);
    var r := s.Enter(false);
    assert r == Err(ValueError("ScopeSpace cannot be used inside functions."));
    assert s.contextBackup == None;
  }
}
