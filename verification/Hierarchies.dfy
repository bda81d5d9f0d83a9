/** Type hierarchies for polymorphic dispatch: for every base the ids of itself and of all its descendants. */
module Hierarchies {
  import opened Common
  import opened Inheritance

  type Children = map<string, seq<string>>
  type Ids = map<string, nat>
  type Variant = (string, nat)

  datatype TypeHierarchy = TypeHierarchy(baseName: string, variants: seq<Variant>)

  // ---- What is to be listed ----

  ghost predicate IsChild(children: Children, parent: string, child: string) {
    parent in children && child in children[parent]
  }

  /** A path of parent-child steps. */
  ghost predicate IsLine(children: Children, line: seq<string>, from: string, to: string) {
    && |line| > 0 && line[0] == from && line[|line| - 1] == to
    && forall i :: 0 <= i < |line| - 1 ==> IsChild(children, line[i], line[i + 1])
  }

  /** to is from itself or one of its descendants. */
  ghost predicate Descends(children: Children, from: string, to: string) {
    exists line :: IsLine(children, line, from, to)
  }

  ghost predicate Named(variants: seq<Variant>, name: string) {
    exists i :: 0 <= i < |variants| && variants[i].0 == name
  }

  ghost predicate OncePerName(variants: seq<Variant>) {
    forall i, j :: 0 <= i < j < |variants| ==> variants[i].0 != variants[j].0
  }

  ghost predicate TrueIds(variants: seq<Variant>, ids: Ids) {
    forall i :: 0 <= i < |variants| ==> variants[i].0 in ids && ids[variants[i].0] == variants[i].1
  }

  /** Exactly the base and its descendants, as far as they have ids, each once with its id. */
  ghost predicate Lists(variants: seq<Variant>, children: Children, ids: Ids, baseName: string) {
    && OncePerName(variants) && TrueIds(variants, ids)
    && forall name :: Named(variants, name) <==> name in ids && Descends(children, baseName, name)
  }

  // ---- Reachability ----

  lemma SelfDescends(children: Children, name: string)
    ensures Descends(children, name, name)
  {
    assert IsLine(children, [name], name, name);
  }

  lemma StepDescends(children: Children, from: string, parent: string, child: string)
    requires Descends(children, from, parent) && IsChild(children, parent, child)
    ensures Descends(children, from, child)
  {
    var line :| IsLine(children, line, from, parent);
    assert IsLine(children, line + [child], from, child);
  }

  lemma {:induction false} ClosedUnderLines(children: Children, visited: set<string>, line: seq<string>, from: string,
                                        to: string)
    requires IsLine(children, line, from, to) && from in visited
    requires forall x, c :: x in visited && IsChild(children, x, c) ==> c in visited
    ensures to in visited
    decreases |line|
  {
    if |line| > 1 {
      assert IsChild(children, line[0], line[1]);
      var later := line[1..];
      forall i | 0 <= i < |later| - 1 ensures IsChild(children, later[i], later[i + 1]) {
        assert IsChild(children, line[i + 1], line[i + 1 + 1]);
      }
      assert IsLine(children, later, line[1], to);
      ClosedUnderLines(children, visited, line[1..], line[1], to);
    }
  }

  // ---- The depth-first collection ----

  /** What a collection from name has done to the two accumulators. */
  ghost predicate Collected(children: Children, ids: Ids, name: string, before: seq<Variant>, seen: set<string>,
                            after: seq<Variant>, visited: set<string>) {
    && seen <= visited
    && (forall x :: x in visited - seen ==> Descends(children, name, x))
    && (forall x, c :: x in visited - seen && IsChild(children, x, c) ==> c in visited)
    && (OncePerName(before) ==> OncePerName(after))
    && (TrueIds(before, ids) ==> TrueIds(after, ids))
    && (forall n :: Named(after, n) <==> Named(before, n) || (n in ids && BelowNew(children, seen, visited, n)))
  }

  /** n is a child of a newly visited name. */
  ghost predicate BelowNew(children: Children, seen: set<string>, visited: set<string>, n: string) {
    exists x :: x in visited - seen && IsChild(children, x, n)
  }

  method HasName(variants: seq<Variant>, name: string) returns (found: bool)
    ensures found <==> Named(variants, name)
  {
    for i := 0 to |variants|
      invariant forall k :: 0 <= k < i ==> variants[k].0 != name
    {
      if variants[i].0 == name {
        return true;
      }
    }
    return false;
  }

  /** Halfway through the children of name. */
  ghost predicate Partly(children: Children, ids: Ids, name: string, kids: seq<string>, i: nat, before: seq<Variant>,
                         seen: set<string>,
                         after: seq<Variant>, visited: set<string>)
    requires i <= |kids|
  {
    && seen + {name} <= visited
    && (forall x :: x in visited - seen ==> Descends(children, name, x))
    && (forall x, c :: x in visited - seen - {name} && IsChild(children, x, c) ==> c in visited)
    && (forall k :: 0 <= k < i ==> kids[k] in visited)
    && (OncePerName(before) ==> OncePerName(after))
    && (TrueIds(before, ids) ==> TrueIds(after, ids))
    && (forall n :: Named(after, n) <==>
          Named(before, n) || (n in ids && (n in kids[..i] || BelowNew(children, seen + {name}, visited, n))))
  }

  method CollectDescendants(name: string, children: Children, ids: Ids, before: seq<Variant>, seen: set<string>)
    returns (variants: seq<Variant>, visited: set<string>)
    ensures Collected(children, ids, name, before, seen, variants, visited)
    ensures seen + {name} <= visited
    decreases |children.Keys - seen|
  {
    hide Descends, Named, OncePerName, TrueIds, BelowNew, Partly, Collected;
    variants, visited := before, seen;
    if name in visited {
      NothingCollected(children, ids, name, before, seen);
      return;
    }
    visited := visited + {name};
    if name in children {
      Smaller(children.Keys, seen, name);
      var kids := children[name];
      PartlyStart(children, ids, name, kids, before, seen);
      for i := 0 to |kids|
        invariant Partly(children, ids, name, kids, i, before, seen, variants, visited) && seen + {name} <= visited
      {
        var child := kids[i];
        ghost var was := variants;
        if child in ids {
          var present := HasName(variants, child);
          if !present {
            variants := variants + [(child, ids[child])];
          }
        }
        Fewer(children.Keys, seen, visited, name);
        ghost var listed, reached := variants, visited;
        variants, visited := CollectDescendants(child, children, ids, variants, visited);
        PartlyStep(children, ids, name, kids, i, before, seen, was, reached, listed, variants, visited);
      }
      PartlyEnd(children, ids, name, kids, before, seen, variants, visited);
    } else {
      LeafCollected(children, ids, name, before, seen);
    }
  }

  lemma Fewer(all: set<string>, seen: set<string>, visited: set<string>, name: string)
    requires name in all && name !in seen && seen + {name} <= visited
    ensures |all - visited| < |all - seen|
  {
    var a, b := all - visited, all - seen;
    assert a <= b - {name};
    SubsetSize(a, b - {name});
  }

  lemma NothingCollected(children: Children, ids: Ids, name: string, before: seq<Variant>, seen: set<string>)
    ensures Collected(children, ids, name, before, seen, before, seen)
  {
    hide Named, Descends;
  }

  lemma LeafCollected(children: Children, ids: Ids, name: string, before: seq<Variant>, seen: set<string>)
    requires name !in children && name !in seen
    ensures Collected(children, ids, name, before, seen, before, seen + {name})
  {
    hide Named, Descends;
    SelfDescends(children, name);
  }

  lemma PartlyStart(children: Children, ids: Ids, name: string, kids: seq<string>, before: seq<Variant>,
                    seen: set<string>)
    requires name !in seen && name in children && kids == children[name]
    ensures Partly(children, ids, name, kids, 0, before, seen, before, seen + {name})
  {
    hide Named, Descends;
    SelfDescends(children, name);
  }

  /** Listing one child, if it has an id and is not listed yet. */
  ghost predicate Listed(ids: Ids, child: string, was: seq<Variant>, listed: seq<Variant>) {
    if child in ids && !Named(was, child) then listed == was + [(child, ids[child])] else listed == was
  }

  lemma ListedNames(ids: Ids, child: string, was: seq<Variant>, listed: seq<Variant>)
    requires Listed(ids, child, was, listed)
    ensures forall n :: Named(listed, n) <==> Named(was, n) || (n == child && child in ids)
    ensures OncePerName(was) ==> OncePerName(listed)
    ensures TrueIds(was, ids) ==> TrueIds(listed, ids)
  {
    if listed != was {
      forall n ensures Named(listed, n) <==> Named(was, n) || n == child {
        assert listed[|was|].0 == child;
        if Named(was, n) {
          var i :| 0 <= i < |was| && was[i].0 == n;
          assert listed[i].0 == n;
        }
      }
    }
  }

  lemma PartlyStep(children: Children, ids: Ids, name: string, kids: seq<string>, i: nat, before: seq<Variant>,
                   seen: set<string>,
                   was: seq<Variant>, reached: set<string>, listed: seq<Variant>, after: seq<Variant>,
                           visited: set<string>)
    requires name in children && kids == children[name] && i < |kids|
    requires Partly(children, ids, name, kids, i, before, seen, was, reached)
    requires Listed(ids, kids[i], was, listed)
    requires Collected(children, ids, kids[i], listed, reached, after, visited) && kids[i] in visited
    ensures Partly(children, ids, name, kids, i + 1, before, seen, after, visited)
  {
    hide Named, Descends, OncePerName, TrueIds, BelowNew, Listed;
    var child := kids[i];
    ListedNames(ids, child, was, listed);
    SelfDescends(children, name);
    assert IsChild(children, name, child);
    forall x | x in visited - seen ensures Descends(children, name, x) {
      if x !in reached {
        StepDescends(children, name, name, child);
        LineThrough(children, name, child, x);
      }
    }
    forall n ensures Named(after, n) <==>
                     Named(before, n) || (n in ids && (n in kids[..i + 1] ||
                             BelowNew(children, seen + {name}, visited, n))) {
      NewBelow(children, seen + {name}, reached, visited, n);
      assert kids[..i + 1] == kids[..i] + [child];
    }
  }

  lemma LineThrough(children: Children, from: string, middle: string, to: string)
    requires Descends(children, from, middle) && Descends(children, middle, to)
    ensures Descends(children, from, to)
  {
    var a :| IsLine(children, a, from, middle);
    var b :| IsLine(children, b, middle, to);
    var line := a + b[1..];
    forall i | 0 <= i < |line| - 1 ensures IsChild(children, line[i], line[i + 1]) {
      if i < |a| - 1 {
        assert line[i] == a[i] && line[i + 1] == a[i + 1];
      } else {
        var j := i - (|a| - 1);
        assert line[i] == b[j] && line[i + 1] == b[j + 1];
      }
    }
    assert IsLine(children, line, from, to);
  }

  lemma NewBelow(children: Children, seen: set<string>, reached: set<string>, visited: set<string>, n: string)
    requires seen <= reached <= visited
    ensures BelowNew(children, seen, visited, n) <==>
              BelowNew(children, seen, reached, n) || BelowNew(children, reached, visited, n)
  {
  }

  lemma PartlyEnd(children: Children, ids: Ids, name: string, kids: seq<string>, before: seq<Variant>,
                  seen: set<string>,
                  after: seq<Variant>, visited: set<string>)
    requires name !in seen && name in children && kids == children[name]
    requires Partly(children, ids, name, kids, |kids|, before, seen, after, visited)
    ensures Collected(children, ids, name, before, seen, after, visited)
  {
    hide Named, Descends, OncePerName, TrueIds;
    assert kids[..|kids|] == kids;
    forall n ensures n in kids || BelowNew(children, seen + {name}, visited, n) <==>
            BelowNew(children, seen, visited, n) {
      if n in kids {
        assert name in visited - seen && IsChild(children, name, n);
      }
    }
  }

  /** A collection from a base with nothing visited, its own id listed first, finds exactly the descendants. */
  lemma CollectedLists(children: Children, ids: Ids, baseName: string, before: seq<Variant>, after: seq<Variant>,
                       visited: set<string>)
    requires before == if baseName in ids then [(baseName, ids[baseName])] else []
    requires Collected(children, ids, baseName, before, {}, after, visited) && baseName in visited
    ensures Lists(after, children, ids, baseName)
  {
    hide Descends, OncePerName, TrueIds, IsLine;
    SelfDescends(children, baseName);
    Single(before, ids);
    forall name ensures Named(after, name) <==> name in ids && Descends(children, baseName, name) {
      if name in ids && Descends(children, baseName, name) {
        LastStep(children, baseName, name, visited);
      }
      if Named(before, name) {
        assert name == baseName && name in ids;
      } else if Named(after, name) {
        var x :| x in visited - {} && IsChild(children, x, name);
        StepDescends(children, baseName, x, name);
      }
      if name in ids && name == baseName {
        assert before[0].0 == name;
      }
    }
  }

  lemma Single(before: seq<Variant>, ids: Ids)
    requires |before| <= 1 && forall i :: 0 <= i < |before| ==> before[i].0 in ids && ids[before[i].0] == before[i].1
    ensures OncePerName(before) && TrueIds(before, ids)
  {
  }

  /** A descendant is the base itself or a child of a visited name. */
  lemma LastStep(children: Children, baseName: string, name: string, visited: set<string>)
    requires Descends(children, baseName, name) && baseName in visited
    requires forall x, c :: x in visited && IsChild(children, x, c) ==> c in visited
    ensures name == baseName || BelowNew(children, {}, visited, name)
  {
    var line :| IsLine(children, line, baseName, name);
    if |line| > 1 {
      var parent := line[|line| - 2];
      assert IsChild(children, line[|line| - 2], line[|line| - 2 + 1]);
      assert IsLine(children, line[..|line| - 1], baseName, parent);
      ClosedUnderLines(children, visited, line[..|line| - 1], baseName, parent);
      assert parent in visited - {} && IsChild(children, parent, name);
    }
  }

  // ---- The maps ----

  /** The child relation of the description: types only, and no root as a parent. */
  ghost predicate Declares(classes: seq<ProtocolClass>, parent: string, child: string) {
    && parent != "NetworkMessage" && parent != "NetworkType"
    && exists i :: 0 <= i < |classes| && !classes[i].isMessage && classes[i].name == child &&
                   classes[i].parent == Some(parent)
  }

  function ChildrenByParent(classes: seq<ProtocolClass>): Children {
    if classes == [] then map[]
    else
      var m, c := ChildrenByParent(classes[..|classes| - 1]), classes[|classes| - 1];
      if c.isMessage || Real(c.parent).None? then m
      else m[Real(c.parent).value := (if Real(c.parent).value in m then m[Real(c.parent).value] else []) + [c.name]]
  }

  function IdsByName(classes: seq<ProtocolClass>): Ids {
    if classes == [] then map[]
    else
      var m, c := IdsByName(classes[..|classes| - 1]), classes[|classes| - 1];
      if c.isMessage then m else m[c.name := c.protocolId]
  }

  lemma {:induction false} ChildrenDeclared(classes: seq<ProtocolClass>, parent: string, child: string)
    ensures IsChild(ChildrenByParent(classes), parent, child) <==> Declares(classes, parent, child)
    ensures parent in ChildrenByParent(classes) ==> ChildrenByParent(classes)[parent] != []
  {
    if classes != [] {
      var front, c := classes[..|classes| - 1], classes[|classes| - 1];
      ChildrenDeclared(front, parent, child);
      DeclaresSplit(classes, parent, child);
    }
  }

  lemma DeclaresSplit(classes: seq<ProtocolClass>, parent: string, child: string)
    requires classes != []
    ensures var c := classes[|classes| - 1];
            Declares(classes, parent, child) <==> Declares(classes[..|classes| - 1], parent, child)
                                                  || (!c.isMessage && c.name == child && Real(c.parent) == Some(parent))
  {
    if Declares(classes, parent, child) {
      var i :| 0 <= i < |classes| && !classes[i].isMessage && classes[i].name == child &&
              Real(classes[i].parent) == Some(parent);
      if i < |classes| - 1 {
        assert classes[..|classes| - 1][i] == classes[i];
      }
    }
    if Declares(classes[..|classes| - 1], parent, child) {
      var front := classes[..|classes| - 1];
      var i :| 0 <= i < |front| && !front[i].isMessage && front[i].name == child && Real(front[i].parent) ==
              Some(parent);
      assert classes[i] == front[i];
    }
  }

  lemma {:induction false} IdsDeclared(classes: seq<ProtocolClass>, i: nat)
    requires UniqueNames(classes) && i < |classes| && !classes[i].isMessage
    ensures classes[i].name in IdsByName(classes) && IdsByName(classes)[classes[i].name] == classes[i].protocolId
  {
    if i < |classes| - 1 {
      IdsDeclared(classes[..|classes| - 1], i);
    }
  }

  /** A path of declared parent-child steps. */
  ghost predicate IsDeclaredLine(classes: seq<ProtocolClass>, line: seq<string>, from: string, to: string) {
    && |line| > 0 && line[0] == from && line[|line| - 1] == to
    && forall i :: 0 <= i < |line| - 1 ==> Declares(classes, line[i], line[i + 1])
  }

  /** A type with this name and id is declared at or below the base. */
  ghost predicate DeclaredBelow(classes: seq<ProtocolClass>, baseName: string, v: Variant) {
    && (exists i :: 0 <= i < |classes| && !classes[i].isMessage && (classes[i].name, classes[i].protocolId) == v)
    && (exists line :: IsDeclaredLine(classes, line, baseName, v.0))
  }

  lemma LinesDeclared(classes: seq<ProtocolClass>, line: seq<string>, from: string, to: string)
    ensures IsLine(ChildrenByParent(classes), line, from, to) <==> IsDeclaredLine(classes, line, from, to)
  {
    hide ChildrenByParent, Declares, IsChild;
    forall i | 0 <= i < |line| - 1
      ensures IsChild(ChildrenByParent(classes), line[i], line[i + 1]) <==> Declares(classes, line[i], line[i + 1])
    {
      ChildrenDeclared(classes, line[i], line[i + 1]);
    }
  }

  /** Unique names: the id map holds exactly the declared types. */
  lemma {:induction false} IdsAreDeclared(classes: seq<ProtocolClass>, name: string)
    ensures name in IdsByName(classes) ==>
              exists i :: 0 <= i < |classes| && !classes[i].isMessage && classes[i].name == name
                          && classes[i].protocolId == IdsByName(classes)[name]
  {
    if classes != [] {
      var front := classes[..|classes| - 1];
      IdsAreDeclared(front, name);
      if name in IdsByName(front) && name in IdsByName(classes) {
        var i :| 0 <= i < |front| && !front[i].isMessage && front[i].name == name
                 && front[i].protocolId == IdsByName(front)[name];
        assert classes[i] == front[i];
      }
    }
  }

  /** In terms of the declarations alone: a hierarchy lists exactly the types declared at or below its base, with their
      ids. */
  lemma ListsDeclared(classes: seq<ProtocolClass>, variants: seq<Variant>, baseName: string, v: Variant)
    requires UniqueNames(classes)
    requires Lists(variants, ChildrenByParent(classes), IdsByName(classes), baseName)
    ensures v in variants <==> DeclaredBelow(classes, baseName, v)
  {
    hide ChildrenByParent, IdsByName, IsLine, IsDeclaredLine, UniqueNames, OncePerName;
    forall line ensures IsLine(ChildrenByParent(classes), line, baseName, v.0) <==>
                        IsDeclaredLine(classes, line, baseName, v.0)
    {
      LinesDeclared(classes, line, baseName, v.0);
    }
    IdsAreDeclared(classes, v.0);
    forall i | 0 <= i < |classes| && !classes[i].isMessage
      ensures classes[i].name in IdsByName(classes) && IdsByName(classes)[classes[i].name] == classes[i].protocolId
    {
      IdsDeclared(classes, i);
    }
    if v in variants {
      var k :| 0 <= k < |variants| && variants[k] == v;
      assert Named(variants, v.0);
    }
  }

  // ---- All hierarchies ----

  method BuildTypeHierarchies(classes: seq<ProtocolClass>) returns (hierarchies: seq<TypeHierarchy>)
    ensures forall i :: 0 <= i < |hierarchies| ==>
              && hierarchies[i].baseName in ChildrenByParent(classes) && |hierarchies[i].variants| > 1
              && Lists(hierarchies[i].variants, ChildrenByParent(classes), IdsByName(classes), hierarchies[i].baseName)
    ensures forall i, j :: 0 <= i < j < |hierarchies| ==> hierarchies[i].baseName != hierarchies[j].baseName
    ensures forall name ::
              name in ChildrenByParent(classes) && Several(ChildrenByParent(classes), IdsByName(classes), name) ==>
              HasBase(hierarchies, name)
  {
    hide Lists, Collected, Several, ChildrenByParent, IdsByName;
    var children, ids := BuildMaps(classes);
    hierarchies := [];
    var rest := children.Keys;
    while rest != {}
      invariant rest <= children.Keys
      invariant forall i :: 0 <= i < |hierarchies| ==>
                  && hierarchies[i].baseName in children.Keys - rest && |hierarchies[i].variants| > 1
                  && Lists(hierarchies[i].variants, children, ids, hierarchies[i].baseName)
      invariant forall i, j :: 0 <= i < j < |hierarchies| ==> hierarchies[i].baseName != hierarchies[j].baseName
      invariant forall name :: name in children.Keys - rest && Several(children, ids, name) ==>
              HasBase(hierarchies, name)
      decreases |rest|
    {
      ghost var some := Member(rest);
      var baseName :| baseName in rest;
      var variants: seq<Variant> := [];
      if baseName in ids {
        variants := [(baseName, ids[baseName])];
      }
      ghost var before := variants;
      var visited;
      variants, visited := CollectDescendants(baseName, children, ids, variants, {});
      CollectedLists(children, ids, baseName, before, variants, visited);
      ghost var earlier := hierarchies;
      if |variants| > 1 {
        hierarchies := hierarchies + [TypeHierarchy(baseName, variants)];
        assert hierarchies[|earlier|].baseName == baseName;
      } else {
        NotSeveral(children, ids, baseName, variants);
      }
      KeepsBases(earlier, hierarchies);
      rest := rest - {baseName};
    }
  }

  ghost predicate HasBase(hierarchies: seq<TypeHierarchy>, name: string) {
    exists i :: 0 <= i < |hierarchies| && hierarchies[i].baseName == name
  }

  lemma KeepsBases(a: seq<TypeHierarchy>, b: seq<TypeHierarchy>)
    requires a <= b
    ensures forall name :: HasBase(a, name) ==> HasBase(b, name)
  {
    forall name | HasBase(a, name) ensures HasBase(b, name) {
      var i :| 0 <= i < |a| && a[i].baseName == name;
      assert b[i].baseName == name;
    }
  }

  /** At least two of the base and its descendants have ids. */
  ghost predicate Several(children: Children, ids: Ids, baseName: string) {
    exists a, b :: a != b && a in ids && b in ids && Descends(children, baseName, a) && Descends(children, baseName, b)
  }

  lemma NotSeveral(children: Children, ids: Ids, baseName: string, variants: seq<Variant>)
    requires Lists(variants, children, ids, baseName) && |variants| <= 1
    ensures !Several(children, ids, baseName)
  {
    hide Descends;
    forall a, b | a in ids && b in ids && Descends(children, baseName, a) &&
            Descends(children, baseName, b) ensures a == b {
      assert Named(variants, a) && Named(variants, b);
    }
  }

  method BuildMaps(classes: seq<ProtocolClass>) returns (children: Children, ids: Ids)
    ensures children == ChildrenByParent(classes) && ids == IdsByName(classes)
  {
    children, ids := map[], map[];
    for i := 0 to |classes|
      invariant children == ChildrenByParent(classes[..i]) && ids == IdsByName(classes[..i])
    {
      assert classes[..i + 1][..i] == classes[..i];
      var c := classes[i];
      if !c.isMessage {
        ids := ids[c.name := c.protocolId];
        if c.parent.Some? && !IsRoot(c.parent.value) {
          var parent := c.parent.value;
          children := children[parent := (if parent in children then children[parent] else []) + [c.name]];
        }
      }
    }
    assert classes[..|classes|] == classes;
  }
}
