/** The assets that a client route loads. */
module Reachability {
  // Two worklist loops follow the references between assets.

  /** The built assets, and the assets that the text of each one refers to. */
  datatype Bundle = Bundle(assets: set<string>, references: string -> seq<string>)

  predicate IsScript(name: string) {
    |name| >= 3 && name[|name| - 3..] == ".js"
  }

  /** Only scripts are read, and only references to built assets are followed. */
  predicate Refers(b: Bundle, x: string, y: string) {
    IsScript(x) && y in b.references(x) && y in b.assets
  }

  ghost predicate EndsWith(name: string, end: string) {
    exists front :: name == front + end
  }

  lemma ScriptsEndInJs(name: string)
    ensures IsScript(name) <==> EndsWith(name, ".js")
  {
    if IsScript(name) {
      assert name == name[..|name| - 3] + ".js";
    }
    forall front | name == front + ".js"
      ensures IsScript(name)
    {
      assert name[|name| - 3..] == ".js";
    }
  }

  ghost predicate IsPath(b: Bundle, p: seq<string>) {
    p != [] && forall i :: 0 <= i < |p| - 1 ==> Refers(b, p[i], p[i + 1])
  }

  ghost predicate Reachable(b: Bundle, seeds: set<string>, x: string) {
    exists p :: IsPath(b, p) && p[0] in seeds && p[|p| - 1] == x
  }

  // ---------- reachability as a least closed set ----------

  ghost predicate Closed(b: Bundle, s: set<string>) {
    forall x, y :: x in s && Refers(b, x, y) ==> y in s
  }

  ghost predicate IsLeastClosed(b: Bundle, seeds: set<string>, r: set<string>) {
    && seeds <= r && Closed(b, r)
    && forall s: set<string> :: seeds <= s && Closed(b, s) ==> r <= s
  }

  lemma SeedIsReachable(b: Bundle, seeds: set<string>, x: string)
    requires x in seeds
    ensures Reachable(b, seeds, x)
  {
    assert IsPath(b, [x]) && [x][0] in seeds && [x][|[x]| - 1] == x;
  }

  lemma ReferenceIsReachable(b: Bundle, seeds: set<string>, x: string, y: string)
    requires Reachable(b, seeds, x) && Refers(b, x, y)
    ensures Reachable(b, seeds, y)
  {
    var p :| IsPath(b, p) && p[0] in seeds && p[|p| - 1] == x;
    var q := p + [y];
    assert IsPath(b, q) && q[0] in seeds && q[|q| - 1] == y;
  }

  /** What a name ending in .js refers to among the built assets is loaded with it; any other asset loads nothing but
      itself. */
  lemma LoadedDirectly(b: Bundle, x: string, y: string)
    requires y in b.references(x) && y in b.assets
    ensures EndsWith(x, ".js") ==> Reachable(b, {x}, y)
    ensures !EndsWith(x, ".js") ==> IsLeastClosed(b, {x}, {x})
  {
    ScriptsEndInJs(x);
    SeedIsReachable(b, {x}, x);
    if IsScript(x) {
      ReferenceIsReachable(b, {x}, x, y);
    }
  }

  /** Nothing is loaded that is neither a seed nor referred to by a loaded name ending in .js and built. */
  lemma LoadedForAReason(b: Bundle, seeds: set<string>, y: string)
    requires Reachable(b, seeds, y)
    ensures y in seeds || (y in b.assets && exists x :: Reachable(b, seeds, x) && EndsWith(x, ".js")
                                                       && y in b.references(x))
  {
    var p :| IsPath(b, p) && p[0] in seeds && p[|p| - 1] == y;
    if |p| > 1 {
      var n := |p| - 1;
      assert Refers(b, p[n - 1], p[n - 1 + 1]);
      ScriptsEndInJs(p[n - 1]);
      var q := p[..n];
      forall i | 0 <= i < |q| - 1
        ensures Refers(b, q[i], q[i + 1])
      {
        assert Refers(b, p[i], p[i + 1]);
      }
      assert IsPath(b, q) && q[0] in seeds && q[|q| - 1] == p[n - 1];
      assert Reachable(b, seeds, p[n - 1]);
    }
  }

  lemma {:induction false} PathStaysInside(b: Bundle, s: set<string>, p: seq<string>)
    requires IsPath(b, p) && p[0] in s && Closed(b, s)
    ensures p[|p| - 1] in s
    decreases |p|
  {
    if |p| > 1 {
      assert Refers(b, p[0], p[0 + 1]);
      assert IsPath(b, p[1..]) by {
        forall i | 0 <= i < |p[1..]| - 1
          ensures Refers(b, p[1..][i], p[1..][i + 1])
        {
          assert Refers(b, p[i + 1], p[i + 1 + 1]);
        }
      }
      PathStaysInside(b, s, p[1..]);
    }
  }

  lemma ClosedHoldsReachable(b: Bundle, seeds: set<string>, s: set<string>, x: string)
    requires seeds <= s && Closed(b, s) && Reachable(b, seeds, x)
    ensures x in s
  {
    var p :| IsPath(b, p) && p[0] in seeds && p[|p| - 1] == x;
    PathStaysInside(b, s, p);
  }

  /** Being reached by a path from the seeds and belonging to the least closed set are the same. */
  lemma LeastClosedIsReachable(b: Bundle, seeds: set<string>, r: set<string>)
    ensures IsLeastClosed(b, seeds, r) <==> forall x :: x in r <==> Reachable(b, seeds, x)
  {
    var found := set x | x in b.assets + seeds && Reachable(b, seeds, x);
    forall x | Reachable(b, seeds, x)
      ensures x in found
    {
      ReachableIsKnown(b, seeds, x);
    }
    forall x | x in seeds
      ensures x in found
    {
      SeedIsReachable(b, seeds, x);
    }
    forall x, y | x in found && Refers(b, x, y)
      ensures y in found
    {
      ReferenceIsReachable(b, seeds, x, y);
    }
    forall s: set<string> | seeds <= s && Closed(b, s)
      ensures found <= s
    {
      forall x | x in found
        ensures x in s
      {
        ClosedHoldsReachable(b, seeds, s, x);
      }
    }
    assert IsLeastClosed(b, seeds, found);
    if forall x :: x in r <==> Reachable(b, seeds, x) {
      assert r == found;
    }
  }

  lemma ReachableIsKnown(b: Bundle, seeds: set<string>, x: string)
    requires Reachable(b, seeds, x)
    ensures x in b.assets + seeds
  {
    var p :| IsPath(b, p) && p[0] in seeds && p[|p| - 1] == x;
    if |p| > 1 {
      assert Refers(b, p[|p| - 2], p[|p| - 2 + 1]);
    }
  }

  // ---------- marking an asset when it is taken from the list ----------

  function Elements(s: seq<string>): set<string> {
    set x | x in s
  }

  function Known(b: Bundle, names: seq<string>): seq<string> {
    if names == [] then [] else (if names[0] in b.assets then [names[0]] else []) + Known(b, names[1..])
  }

  lemma {:induction false} KnownElements(b: Bundle, names: seq<string>)
    ensures forall x :: x in Known(b, names) <==> x in names && x in b.assets
  {
    if names != [] {
      KnownElements(b, names[1..]);
      assert forall x :: x in names <==> x == names[0] || x in names[1..];
    }
  }

  /** What the first loop knows while it works: everything marked or waiting is reachable, and whatever a marked
      asset refers to is marked or waiting. The empty name is dropped when it is taken. */
  ghost predicate Consistent(b: Bundle, seeds: set<string>, closure: set<string>, pending: seq<string>) {
    && (forall x :: x in closure || x in pending ==> Reachable(b, seeds, x) && x in b.assets)
    && (forall x :: x in seeds ==> x in closure || x in pending || x == "")
    && (forall x, y :: x in closure && Refers(b, x, y) ==> y in closure || y in pending || y == "")
    && "" !in closure
  }

  lemma Started(b: Bundle, preloads: seq<string>)
    ensures Consistent(b, Elements(preloads) * b.assets, {}, Known(b, preloads))
  {
    var seeds := Elements(preloads) * b.assets;
    KnownElements(b, preloads);
    forall x | x in Known(b, preloads)
      ensures Reachable(b, seeds, x)
    {
      SeedIsReachable(b, seeds, x);
    }
  }

  lemma Skipped(b: Bundle, seeds: set<string>, closure: set<string>, pending: seq<string>, name: string)
    requires Consistent(b, seeds, closure, pending + [name]) && (name == "" || name in closure)
    ensures Consistent(b, seeds, closure, pending)
  {
    hide Reachable, Refers;
    assert forall x :: x in pending + [name] <==> x in pending || x == name;
  }

  lemma MarkedAndPushed(b: Bundle, seeds: set<string>, closure: set<string>, pending: seq<string>, name: string,
                        pushed: seq<string>)
    requires Consistent(b, seeds, closure, pending + [name]) && name != ""
    requires pending <= pushed
    requires forall y :: y in pushed ==> y in pending || (Refers(b, name, y) && Reachable(b, seeds, y))
    requires forall y :: Refers(b, name, y) ==> y in closure + {name} || y in pushed
    ensures Consistent(b, seeds, closure + {name}, pushed)
  {
    assert forall y :: Refers(b, name, y) ==> y in b.assets;
    hide Reachable, Refers;
    assert forall x :: x in pending + [name] <==> x in pending || x == name;
    assert forall x :: x in pending ==> x in pushed;
  }

  lemma Finished(b: Bundle, seeds: set<string>, closure: set<string>)
    requires Consistent(b, seeds, closure, [])
    ensures forall x :: x in closure <==> x != "" && Reachable(b, seeds, x)
  {
    assert Closed(b, closure + {""});
    forall x | x != "" && Reachable(b, seeds, x)
      ensures x in closure
    {
      ClosedHoldsReachable(b, seeds, closure + {""}, x);
    }
  }

  method RouteClosure(b: Bundle, preloads: seq<string>) returns (closure: set<string>)
    ensures forall x :: x in closure <==> x != "" && Reachable(b, Elements(preloads) * b.assets, x)
  {
    hide Reachable, Refers;
    ghost var seeds := Elements(preloads) * b.assets;
    var pending := Known(b, preloads);
    Started(b, preloads);
    closure := {};
    while |pending| > 0
      invariant Consistent(b, seeds, closure, pending)
      decreases |b.assets - closure|, |pending|
    {
      var name := pending[|pending| - 1];
      assert pending == pending[..|pending| - 1] + [name];
      pending := pending[..|pending| - 1];
      if name == "" || name in closure {
        Skipped(b, seeds, closure, pending, name);
        continue;
      }
      assert name in pending + [name];
      ghost var before, rest := closure, pending;
      closure := closure + {name};
      Shrinks(b.assets, before, name);
      if IsScript(name) {
        pending := PushReferences(b, seeds, name, closure, pending);
      } else {
        NotReading(b, name);
      }
      MarkedAndPushed(b, seeds, before, rest, name, pending);
    }
    Finished(b, seeds, closure);
  }

  lemma NotReading(b: Bundle, name: string)
    requires !IsScript(name)
    ensures forall y :: !Refers(b, name, y)
  {
  }

  lemma Shrinks(all: set<string>, marked: set<string>, name: string)
    requires name in all && name !in marked
    ensures |all - (marked + {name})| < |all - marked|
  {
    assert all - marked == (all - (marked + {name})) + {name};
  }

  /** The inner loop: every reference to a known, unmarked asset waits. */
  method PushReferences(b: Bundle, ghost seeds: set<string>, name: string, closure: set<string>, start: seq<string>)
    returns (pending: seq<string>)
    requires name in closure && IsScript(name) && Reachable(b, seeds, name)
    ensures start <= pending
    ensures forall y :: y in pending ==> y in start || (Refers(b, name, y) && Reachable(b, seeds, y))
    ensures forall y :: Refers(b, name, y) ==> y in closure || y in pending
  {
    pending := start;
    var references := b.references(name);
    for i := 0 to |references|
      invariant start <= pending
      invariant forall y :: y in pending ==> y in start || (Refers(b, name, y) && Reachable(b, seeds, y))
      invariant forall j :: 0 <= j < i && references[j] in b.assets ==>
                  references[j] in closure || references[j] in pending
    {
      var reference := references[i];
      if reference in b.assets && reference !in closure {
        ReferenceIsReachable(b, seeds, name, reference);
        pending := pending + [reference];
      }
    }
  }

  // ---------- marking an asset when it is put on the list ----------

  ghost predicate Marked(b: Bundle, seeds: set<string>, names: set<string>, pending: seq<string>) {
    && seeds <= names
    && (forall x :: x in pending ==> x in names)
    && (forall x :: x in names ==> Reachable(b, seeds, x))
    && (forall x, y :: x in names && x !in pending && Refers(b, x, y) ==> y in names)
  }

  lemma MarkedReferences(b: Bundle, seeds: set<string>, marked: set<string>, pending: seq<string>, name: string,
                         names: set<string>, pushed: seq<string>)
    requires Marked(b, seeds, marked, pending + [name])
    requires marked <= names && pending <= pushed
    requires forall x :: x in pushed ==> x in pending || x in names
    requires forall x :: x in names ==> x in marked || (x in pushed && Reachable(b, seeds, x))
    requires forall y :: Refers(b, name, y) ==> y in names
    ensures Marked(b, seeds, names, pushed)
  {
    hide Reachable, Refers;
    assert forall x :: x in pending + [name] <==> x in pending || x == name;
    assert forall x :: x in pending ==> x in pushed;
  }

  lemma AllSeedsMarked(b: Bundle, entry: seq<string>)
    ensures Marked(b, Elements(entry), Elements(entry), entry)
  {
    forall x | x in entry
      ensures Reachable(b, Elements(entry), x)
    {
      SeedIsReachable(b, Elements(entry), x);
    }
  }

  lemma AllMarked(b: Bundle, seeds: set<string>, names: set<string>)
    requires Marked(b, seeds, names, [])
    ensures forall x :: x in names <==> Reachable(b, seeds, x)
  {
    assert Closed(b, names);
    forall x | Reachable(b, seeds, x)
      ensures x in names
    {
      ClosedHoldsReachable(b, seeds, names, x);
    }
  }

  method ScalarClosure(b: Bundle, entry: seq<string>) returns (names: set<string>)
    ensures forall x :: x in names <==> Reachable(b, Elements(entry), x)
  {
    hide Reachable, Refers;
    ghost var seeds := Elements(entry);
    names := Elements(entry);
    var pending := entry;
    AllSeedsMarked(b, entry);
    while |pending| > 0
      invariant Marked(b, seeds, names, pending)
      invariant names <= b.assets + seeds
      decreases |b.assets + seeds - names|, |pending|
    {
      var name := pending[|pending| - 1];
      assert pending == pending[..|pending| - 1] + [name];
      pending := pending[..|pending| - 1];
      assert name in pending + [name];
      ghost var before, rest := names, pending;
      if IsScript(name) {
        names, pending := MarkReferences(b, seeds, name, names, pending);
        if names != before {
          GrowthShrinks(b.assets + seeds, before, names);
        }
      } else {
        NotReading(b, name);
      }
      MarkedReferences(b, seeds, before, rest, name, names, pending);
    }
    AllMarked(b, seeds, names);
  }

  lemma GrowthShrinks(all: set<string>, before: set<string>, after: set<string>)
    requires before < after <= all
    ensures |all - after| < |all - before|
  {
    var x :| x in after && x !in before;
    assert all - after <= (all - before) - {x};
    Subset(all - after, (all - before) - {x});
  }

  lemma {:induction false} Subset(a: set<string>, b: set<string>)
    requires a <= b
    ensures |a| <= |b|
  {
    if a != {} {
      var x :| x in a;
      Subset(a - {x}, b - {x});
    }
  }

  /** The inner loop: every reference to a known, unmarked asset is marked and waits. */
  method MarkReferences(b: Bundle, ghost seeds: set<string>, name: string, marked: set<string>, start: seq<string>)
    returns (names: set<string>, pending: seq<string>)
    requires IsScript(name) && Reachable(b, seeds, name)
    ensures marked <= names <= marked + b.assets && start <= pending
    ensures names == marked ==> pending == start
    ensures forall x :: x in pending ==> x in start || x in names
    ensures forall x :: x in names ==> x in marked || (x in pending && Reachable(b, seeds, x))
    ensures forall y :: Refers(b, name, y) ==> y in names
  {
    names, pending := marked, start;
    var references := b.references(name);
    for i := 0 to |references|
      invariant marked <= names <= marked + b.assets && start <= pending
      invariant names == marked ==> pending == start
      invariant forall x :: x in pending ==> x in start || x in names
      invariant forall x :: x in names ==> x in marked || (x in pending && Reachable(b, seeds, x))
      invariant forall j :: 0 <= j < i && references[j] in b.assets ==> references[j] in names
    {
      var reference := references[i];
      if reference in b.assets && reference !in names {
        ReferenceIsReachable(b, seeds, name, reference);
        names := names + {reference};
        pending := pending + [reference];
      }
    }
  }

  /** Marking early or late makes no difference: both loops compute the least closed set over their seeds. */
  lemma BothLoopsAgree(b: Bundle, names: seq<string>, late: set<string>, early: set<string>)
    requires Elements(names) <= b.assets && "" !in b.assets
    requires forall x :: x in late <==> x != "" && Reachable(b, Elements(names) * b.assets, x)
    requires forall x :: x in early <==> Reachable(b, Elements(names), x)
    ensures late == early && IsLeastClosed(b, Elements(names), early)
  {
    var seeds := Elements(names);
    assert seeds * b.assets == seeds;
    LeastClosedIsReachable(b, seeds, early);
    forall x | Reachable(b, seeds, x)
      ensures x != ""
    {
      ReachableIsKnown(b, seeds, x);
    }
  }
}
