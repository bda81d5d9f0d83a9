/** Class inheritance in the protocol description: what the parser's climb along parent names collects. */
module Inheritance {
  import opened Common
  import opened Schema

  datatype ProtocolClass = ProtocolClass(name: string, parent: Option<string>, isMessage: bool, protocolId: nat,
          fields: seq<Field>)

  predicate IsRoot(name: string) {
    name == "NetworkMessage" || name == "NetworkType"
  }

  /** The parent, unless it is one of the two roots of the protocol. */
  function Real(parent: Option<string>): Option<string> {
    match parent
    case Some(name) => if IsRoot(name) then None else parent
    case None => None
  }

  type FieldMap = map<string, seq<Field>>
  type ParentMap = map<string, Option<string>>

  function FieldsByName(classes: seq<ProtocolClass>): FieldMap {
    if classes == [] then map[]
    else FieldsByName(classes[..|classes| - 1])[classes[|classes| - 1].name := classes[|classes| - 1].fields]
  }

  function ParentsByName(classes: seq<ProtocolClass>): ParentMap {
    if classes == [] then map[]
    else ParentsByName(classes[..|classes| - 1])[classes[|classes| - 1].name := classes[|classes| - 1].parent]
  }

  function NextUp(parents: ParentMap, name: string): Option<string> {
    if name in parents then parents[name] else None
  }

  function ParentOf(parents: ParentMap, name: string): Option<string> {
    Real(NextUp(parents, name))
  }

  function OwnFields(fields: FieldMap, name: string): seq<Field> {
    if name in fields then fields[name] else []
  }

  /** The names the climb visits, nearest ancestor first; a name met before ends it. */
  function Climb(parents: ParentMap, current: Option<string>, visited: set<string>): seq<string>
    decreases |parents.Keys - visited|, if current.Some? then 1 else 0
  {
    match Real(current)
    case None => []
    case Some(name) =>
      if name in visited then []
      else
        Smaller(parents.Keys, visited, name);
        [name] + Climb(parents, NextUp(parents, name), visited + {name})
  }

  lemma Smaller(all: set<string>, visited: set<string>, name: string)
    requires name !in visited
    ensures name in all ==> |all - (visited + {name})| < |all - visited|
    ensures name !in all ==> all - (visited + {name}) == all - visited
  {
    if name in all {
      assert all - visited == all - (visited + {name}) + {name};
    }
  }

  /** The fields of the names on a climb, topmost first. */
  function Gathered(fields: FieldMap, chain: seq<string>): seq<Field> {
    if chain == [] then [] else Gathered(fields, chain[1..]) + OwnFields(fields, chain[0])
  }

  function ResolvedFields(classes: seq<ProtocolClass>, c: ProtocolClass): seq<Field> {
    Gathered(FieldsByName(classes), Climb(ParentsByName(classes), c.parent, {})) + c.fields
  }

  // ---- The climb lists the ancestors, whatever the parent map ----

  /** k steps above a start. */
  function Above(parents: ParentMap, start: Option<string>, k: nat): Option<string> {
    if k == 0 then Real(start)
    else
      match Above(parents, start, k - 1)
      case None => None
      case Some(name) => ParentOf(parents, name)
  }

  ghost predicate IsAncestor(parents: ParentMap, start: Option<string>, name: string) {
    exists k: nat :: Above(parents, start, k) == Some(name)
  }

  /** The climb passes through every name but the two roots, where it ends. */
  lemma RootsEndClimb(parents: ParentMap, start: Option<string>)
    ensures start in {None, Some("NetworkMessage"), Some("NetworkType")} <==> Climb(parents, start, {}) == []
    ensures Climb(parents, start, {}) != [] ==> Some(Climb(parents, start, {})[0]) == start
  {
  }

  lemma {:induction false} AboveShift(parents: ParentMap, start: Option<string>, k: nat)
    requires Real(start).Some?
    ensures Above(parents, start, k + 1) == Above(parents, ParentOf(parents, Real(start).value), k)
  {
    if k > 0 {
      AboveShift(parents, start, k - 1);
    } else {
      assert Above(parents, start, 1) == ParentOf(parents, Above(parents, start, 0).value);
    }
  }

  lemma ClimbSame(parents: ParentMap, current: Option<string>, visited: set<string>)
    ensures Climb(parents, Real(current), visited) == Climb(parents, current, visited)
  {
  }

  /** Position k of the climb is k steps up; it ends at a root, an unknown parent's end, or a name met before. */
  ghost predicate Follows(parents: ParentMap, current: Option<string>, visited: set<string>, chain: seq<string>) {
    && (forall k :: 0 <= k < |chain| ==> Above(parents, current, k) == Some(chain[k]))
    && (forall name :: name in chain ==> name !in visited)
    && (forall i, j :: 0 <= i < j < |chain| ==> chain[i] != chain[j])
    && var next := Above(parents, current, |chain|);
       next.Some? ==> next.value in visited || next.value in chain
  }

  lemma {:induction false} ClimbSteps(parents: ParentMap, current: Option<string>, visited: set<string>)
    ensures Follows(parents, current, visited, Climb(parents, current, visited))
    decreases |parents.Keys - visited|, if current.Some? then 1 else 0
  {
    hide Above, Follows;
    if Real(current).Some? && Real(current).value !in visited {
      var name := Real(current).value;
      Smaller(parents.Keys, visited, name);
      ClimbSteps(parents, NextUp(parents, name), visited + {name});
      FollowsOneMore(parents, current, visited, Climb(parents, NextUp(parents, name), visited + {name}));
    } else {
      ClimbStops(parents, current, visited);
    }
  }

  lemma ClimbStops(parents: ParentMap, current: Option<string>, visited: set<string>)
    requires Real(current).Some? ==> Real(current).value in visited
    ensures Follows(parents, current, visited, [])
  {
    Base(parents, current);
  }

  lemma FollowsOneMore(parents: ParentMap, current: Option<string>, visited: set<string>, rest: seq<string>)
    requires Real(current).Some? && Real(current).value !in visited
    requires Follows(parents, NextUp(parents, Real(current).value), visited + {Real(current).value}, rest)
    ensures Follows(parents, current, visited, [Real(current).value] + rest)
  {
    hide Above;
    var name := Real(current).value;
    var chain := [name] + rest;
    Base(parents, current);
    forall k | 0 < k <= |chain| ensures Above(parents, current, k) == Above(parents, NextUp(parents, name), k - 1) {
      AboveShift(parents, current, k - 1);
      AboveReal(parents, NextUp(parents, name), k - 1);
    }
    assert name !in rest;
  }

  lemma Base(parents: ParentMap, current: Option<string>)
    ensures Above(parents, current, 0) == Real(current)
  {
  }

  lemma {:induction false} AboveReal(parents: ParentMap, start: Option<string>, k: nat)
    ensures Above(parents, Real(start), k) == Above(parents, start, k)
  {
    if k > 0 {
      AboveReal(parents, start, k - 1);
    }
  }

  lemma {:induction false} StaysOnClimb(parents: ParentMap, start: Option<string>, k: nat)
    requires Above(parents, start, k).Some?
    ensures Above(parents, start, k).value in Climb(parents, start, {})
  {
    hide Climb;
    var chain := Climb(parents, start, {});
    ClimbSteps(parents, start, {});
    if k > 0 {
      StaysOnClimb(parents, start, k - 1);
      var i :| 0 <= i < |chain| && chain[i] == Above(parents, start, k - 1).value;
      assert Above(parents, start, i + 1) == Above(parents, start, k);
    }
  }

  /** Main result, cycles included: the climb visits every ancestor, each once, and nothing else. */
  lemma ClimbIsAncestors(parents: ParentMap, start: Option<string>)
    ensures forall name :: name in Climb(parents, start, {}) <==> IsAncestor(parents, start, name)
    ensures forall i, j :: 0 <= i < j < |Climb(parents, start, {})| ==>
            Climb(parents, start, {})[i] != Climb(parents, start, {})[j]
  {
    hide Climb, Above;
    ClimbSteps(parents, start, {});
    forall name ensures name in Climb(parents, start, {}) <==> IsAncestor(parents, start, name) {
      if IsAncestor(parents, start, name) {
        var k: nat :| Above(parents, start, k) == Some(name);
        StaysOnClimb(parents, start, k);
      }
    }
  }

  // ---- On acyclic maps: inheritance as one would define it ----

  /** A rank that falls from every class to its parent: the map has no cycle. */
  ghost predicate Ranked(parents: ParentMap, rank: string -> nat) {
    forall name :: name in parents && Real(parents[name]).Some? ==> rank(Real(parents[name]).value) < rank(name)
  }

  /** All fields of a class: those of its parent, then its own. */
  ghost function AllFields(fields: FieldMap, parents: ParentMap, rank: string -> nat, name: string): seq<Field>
    requires Ranked(parents, rank)
    decreases rank(name)
  {
    match ParentOf(parents, name)
    case None => OwnFields(fields, name)
    case Some(p) => AllFields(fields, parents, rank, p) + OwnFields(fields, name)
  }

  lemma {:induction false} ClimbGathers(fields: FieldMap, parents: ParentMap, rank: string -> nat,
                                        current: Option<string>, visited: set<string>)
    requires Ranked(parents, rank)
    requires forall v :: v in visited && Real(current).Some? ==> rank(Real(current).value) < rank(v)
    ensures Gathered(fields, Climb(parents, current, visited)) ==
            match Real(current) case None => [] case Some(name) => AllFields(fields, parents, rank, name)
    decreases |parents.Keys - visited|, if current.Some? then 1 else 0
  {
    hide Climb, Gathered, Ranked, AllFields;
    if Real(current).Some? {
      var name := Real(current).value;
      assert name !in visited;
      Smaller(parents.Keys, visited, name);
      RankFalls(parents, rank, name);
      ClimbGathers(fields, parents, rank, NextUp(parents, name), visited + {name});
      GatherStep(fields, parents, Some(name), visited, []);
      ClimbSame(parents, current, visited);
      AllFieldsStep(fields, parents, rank, name);
      Appended(Gathered(fields, Climb(parents, current, visited)), OwnFields(fields, name));
    } else {
      ClimbEnds(fields, parents, Real(current), visited, []);
      ClimbSame(parents, current, visited);
      Appended(Gathered(fields, Climb(parents, current, visited)), []);
    }
  }

  lemma Appended(a: seq<Field>, b: seq<Field>)
    ensures a + [] == a && b + [] == b
  {
  }

  lemma RankFalls(parents: ParentMap, rank: string -> nat, name: string)
    requires Ranked(parents, rank)
    ensures Real(NextUp(parents, name)).Some? ==> rank(Real(NextUp(parents, name)).value) < rank(name)
  {
  }

  lemma AllFieldsStep(fields: FieldMap, parents: ParentMap, rank: string -> nat, name: string)
    requires Ranked(parents, rank)
    ensures AllFields(fields, parents, rank, name) ==
            (match Real(NextUp(parents, name)) case None => [] case Some(p) => AllFields(fields, parents, rank, p))
            + OwnFields(fields, name)
  {
    assert [] + OwnFields(fields, name) == OwnFields(fields, name);
  }

  ghost predicate UniqueNames(classes: seq<ProtocolClass>) {
    forall i, j :: 0 <= i < j < |classes| ==> classes[i].name != classes[j].name
  }

  lemma {:induction false} MapsHold(classes: seq<ProtocolClass>, i: nat)
    requires UniqueNames(classes) && i < |classes|
    ensures classes[i].name in FieldsByName(classes) && FieldsByName(classes)[classes[i].name] == classes[i].fields
    ensures classes[i].name in ParentsByName(classes) && ParentsByName(classes)[classes[i].name] == classes[i].parent
  {
    if i < |classes| - 1 {
      MapsHold(classes[..|classes| - 1], i);
    }
  }

  /** Main result: without cycles every class ends up with its ancestors' own fields, root first, then its own. */
  lemma AcyclicInheritance(classes: seq<ProtocolClass>, rank: string -> nat, i: nat)
    requires UniqueNames(classes) && Ranked(ParentsByName(classes), rank) && i < |classes|
    ensures ResolvedFields(classes, classes[i]) ==
            AllFields(FieldsByName(classes), ParentsByName(classes), rank, classes[i].name)
  {
    hide Climb, Gathered, FieldsByName, ParentsByName;
    MapsHold(classes, i);
    ClimbGathers(FieldsByName(classes), ParentsByName(classes), rank, classes[i].parent, {});
  }

  // ---- The loop ----

  /** Every class in turn climbs its parents, over the fields as they were before. */
  method ResolveInheritance(classes: seq<ProtocolClass>) returns (r: seq<ProtocolClass>)
    ensures |r| == |classes|
    ensures forall i :: 0 <= i < |classes| ==> r[i] == classes[i].(fields := ResolvedFields(classes, classes[i]))
  {
    hide ResolvedFields;
    var fieldMap: FieldMap, parentMap: ParentMap := map[], map[];
    for i := 0 to |classes|
      invariant fieldMap == FieldsByName(classes[..i]) && parentMap == ParentsByName(classes[..i])
    {
      assert classes[..i + 1][..i] == classes[..i];
      fieldMap := fieldMap[classes[i].name := classes[i].fields];
      parentMap := parentMap[classes[i].name := classes[i].parent];
    }
    assert classes[..|classes|] == classes;
    r := [];
    for i := 0 to |classes|
      invariant |r| == i
      invariant forall k :: 0 <= k < i ==> r[k] == classes[k].(fields := ResolvedFields(classes, classes[k]))
    {
      var parentFields := ParentFields(fieldMap, parentMap, classes[i].parent);
      Resolve(classes, classes[i]);
      if parentFields != [] {
        r := r + [classes[i].(fields := parentFields + classes[i].fields)];
      } else {
        assert parentFields + classes[i].fields == classes[i].fields;
        r := r + [classes[i]];
      }
    }
  }

  lemma Resolve(classes: seq<ProtocolClass>, c: ProtocolClass)
    ensures ResolvedFields(classes, c) ==
            Gathered(FieldsByName(classes), Climb(ParentsByName(classes), c.parent, {})) + c.fields
  {
  }

  /** The climb of one class; it ends on every parent map. */
  method ParentFields(fieldMap: FieldMap, parentMap: ParentMap, parent: Option<string>)
    returns (parentFields: seq<Field>)
    ensures parentFields == Gathered(fieldMap, Climb(parentMap, parent, {}))
  {
    hide Climb, Gathered;
    parentFields := [];
    assert Gathered(fieldMap, Climb(parentMap, parent, {})) + [] == Gathered(fieldMap, Climb(parentMap, parent, {}));
    var current := parent;
    var visited: set<string> := {};
    while current.Some?
      invariant Gathered(fieldMap, Climb(parentMap, current, visited)) + parentFields ==
                Gathered(fieldMap, Climb(parentMap, parent, {}))
      decreases |parentMap.Keys - visited|, if current.Some? then 1 else 0
    {
      var name := current.value;
      if IsRoot(name) || name in visited {
        ClimbEnds(fieldMap, parentMap, current, visited, parentFields);
        return;
      }
      Smaller(parentMap.Keys, visited, name);
      GatherStep(fieldMap, parentMap, current, visited, parentFields);
      visited := visited + {name};
      if name in fieldMap {
        parentFields := fieldMap[name] + parentFields;
      } else {
        assert [] + parentFields == parentFields;
      }
      current := NextUp(parentMap, name);
    }
    ClimbEnds(fieldMap, parentMap, current, visited, parentFields);
  }

  lemma ClimbEnds(fields: FieldMap, parents: ParentMap, current: Option<string>, visited: set<string>,
                  found: seq<Field>)
    requires current.Some? ==> IsRoot(current.value) || current.value in visited
    ensures Gathered(fields, Climb(parents, current, visited)) + found == found
  {
    assert Climb(parents, current, visited) == [];
    assert [] + found == found;
  }

  lemma GatherStep(fields: FieldMap, parents: ParentMap, current: Option<string>, visited: set<string>,
                   found: seq<Field>)
    requires current.Some? && !IsRoot(current.value) && current.value !in visited
    ensures var next := NextUp(parents, current.value);
            Gathered(fields, Climb(parents, current, visited)) + found ==
            Gathered(fields, Climb(parents, next, visited + {current.value})) + (OwnFields(fields,
                    current.value) + found)
  {
    var next := NextUp(parents, current.value);
    var rest := Climb(parents, next, visited + {current.value});
    assert Climb(parents, current, visited) == [current.value] + rest;
    assert ([current.value] + rest)[1..] == rest;
  }
}
