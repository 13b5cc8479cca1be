/**
 The crates a diff can affect, as scripts/ci-affected-crates.py computes them: each changed path touches
 the member with the longest directory above it, and everything that depends on a touched member is affected.
 */
module AffectedCrates {
  import opened StableSort
  import opened Wrappers

  datatype Package = Package(name: string, directory: string, dependencies: seq<string>)
  datatype Member = Member(name: string, directory: string)

  const WIDE: seq<string> := ["Cargo.lock", "Cargo.toml", "rust-toolchain", ".cargo/", ".github/"]
  const SKIP: set<string> := {"bridgething-desktop"}

  // What is printed: the flags for the whole workspace, nothing, or one flag for each package.
  datatype Flags = Workspace | Nothing | Packages(names: set<string>)

  predicate IsWide(path: string) {
    exists prefix | prefix in WIDE :: prefix <= path
  }

  // A dictionary assignment: an entry keeps its place when it is written again.
  function Put(members: seq<Member>, member: Member): (after: seq<Member>) {
    if members == [] then [member]
    else if members[0].name == member.name then [member] + members[1..]
    else [members[0]] + Put(members[1..], member)
  }

  function MembersOf(packages: seq<Package>): (members: seq<Member>)
    decreases |packages|
  {
    if packages == [] then []
    else Put(MembersOf(packages[..|packages| - 1]),
             Member(packages[|packages| - 1].name, packages[|packages| - 1].directory))
  }

  function NamesOf(packages: seq<Package>): (names: set<string>) {
    set package | package in packages :: package.name
  }

  predicate Covers(directory: string, path: string) {
    path == directory || directory + "/" <= path
  }

  function Above(path: string): Member -> bool {
    (member: Member) => Covers(member.directory, path)
  }

  // Longest directory first.
  function ByLongest(member: Member): int {
    -|member.directory|
  }

  // The owner of a path, by one scan for the longest directory.
  function OwnerOf(members: seq<Member>, path: string): (owner: Option<Member>) {
    LeastWanted(ByLongest, Above(path), members)
  }

  function Touched(members: seq<Member>, changed: seq<string>): (touched: set<string>) {
    set path | path in changed && OwnerOf(members, path).Some? :: OwnerOf(members, path).value.name
  }

  predicate DependsOn(packages: seq<Package>, dependent: string, dependency: string) {
    exists package | package in packages :: package.name == dependent && dependency in package.dependencies
  }

  // A chain of dependencies down to a touched member.
  predicate IsChain(packages: seq<Package>, chain: seq<string>, touched: set<string>) {
    && chain != []
    && chain[|chain| - 1] in touched
    && forall i | 0 <= i < |chain| - 1 :: DependsOn(packages, chain[i], chain[i + 1])
  }

  ghost predicate Reaches(packages: seq<Package>, name: string, touched: set<string>) {
    exists chain :: IsChain(packages, chain, touched) && chain[0] == name
  }

  // ----- ownership

  lemma {:induction false} OwnerIsLongest(members: seq<Member>, path: string)
    ensures match OwnerOf(members, path)
            case None => forall member | member in members :: !Covers(member.directory, path)
            case Some(owner) =>
              && owner in members && Covers(owner.directory, path)
              && forall member | member in members && Covers(member.directory, path) :: |member.directory| <= |owner.directory|
    decreases |members|
  {
    if members != [] {
      OwnerIsLongest(members[..|members| - 1], path);
      assert members == members[..|members| - 1] + [members[|members| - 1]];
    }
  }

  // Two directories of one length above the same path are the same directory, so the owner is the only one.
  lemma OwnerIsTheOnlyOne(a: string, b: string, path: string)
    requires Covers(a, path) && Covers(b, path) && |a| == |b|
    ensures a == b
  {
    assert a == path[..|a|] && b == path[..|b|];
  }

  method CollectMembers(packages: seq<Package>) returns (members: seq<Member>)
    ensures members == MembersOf(packages)
  {
    members := [];
    for i := 0 to |packages|
      invariant members == MembersOf(packages[..i])
    {
      assert packages[..i + 1][..i] == packages[..i];
      members := Put(members, Member(packages[i].name, packages[i].directory));
    }
    assert packages[..|packages|] == packages;
  }

  lemma {:induction false} FirstWantedFrom(members: seq<Member>, wanted: Member -> bool, k: nat)
    requires k <= |members|
    requires forall i | 0 <= i < k :: !wanted(members[i])
    ensures FirstWanted(wanted, members) == FirstWanted(wanted, members[k..])
    decreases k
  {
    if k > 0 {
      FirstWantedFrom(members[1..], wanted, k - 1);
      assert members[1..][k - 1..] == members[k..];
    }
  }

  method FindOwner(owners: seq<Member>, path: string) returns (owner: Option<Member>)
    ensures owner == FirstWanted(Above(path), owners)
  {
    for i := 0 to |owners|
      invariant forall k | 0 <= k < i :: !Above(path)(owners[k])
    {
      if Covers(owners[i].directory, path) {
        FirstWantedFrom(owners, Above(path), i);
        return Some(owners[i]);
      }
    }
    FirstWantedFrom(owners, Above(path), |owners|);
    return None;
  }

  method CollectTouched(members: seq<Member>, changed: seq<string>) returns (touched: set<string>)
    ensures touched == Touched(members, changed)
  {
    var owners := Sort(ByLongest, members);
    touched := {};
    for i := 0 to |changed|
      invariant touched == Touched(members, changed[..i])
    {
      assert changed[..i + 1] == changed[..i] + [changed[i]];
      var owner := FindOwner(owners, changed[i]);
      FirstOfSortIsLeast(ByLongest, Above(changed[i]), members);
      assert owner == OwnerOf(members, changed[i]);
      assert Touched(members, changed[..i + 1])
          == Touched(members, changed[..i]) + if owner.Some? then {owner.value.name} else {};
      if owner.Some? {
        touched := touched + {owner.value.name};
      }
    }
    assert changed[..|changed|] == changed;
  }

  // ----- dependents

  function DependentsOf(packages: seq<Package>, dependency: string): (dependents: set<string>) {
    set package | package in packages && dependency in package.dependencies :: package.name
  }

  method CollectDependents(packages: seq<Package>) returns (dependents: map<string, set<string>>)
    ensures dependents.Keys == NamesOf(packages)
    ensures forall name | name in dependents :: dependents[name] == DependentsOf(packages, name)
  {
    dependents := map name | name in NamesOf(packages) :: {};
    for i := 0 to |packages|
      invariant dependents.Keys == NamesOf(packages)
      invariant forall name | name in dependents :: dependents[name] == DependentsOf(packages[..i], name)
    {
      assert packages[..i + 1] == packages[..i] + [packages[i]];
      dependents := AddDependencies(packages[..i], packages[i], dependents);
    }
    assert packages[..|packages|] == packages;
  }

  method AddDependencies(earlier: seq<Package>, package: Package, before: map<string, set<string>>)
    returns (dependents: map<string, set<string>>)
    requires forall name | name in before :: before[name] == DependentsOf(earlier, name)
    ensures dependents.Keys == before.Keys
    ensures forall name | name in dependents :: dependents[name] == DependentsOf(earlier + [package], name)
  {
    dependents := before;
    for i := 0 to |package.dependencies|
      invariant dependents.Keys == before.Keys
      invariant forall name | name in dependents ::
                  dependents[name] == before[name] + if name in package.dependencies[..i] then {package.name} else {}
    {
      var dep := package.dependencies[i];
      if dep in dependents {
        dependents := dependents[dep := dependents[dep] + {package.name}];
      }
    }
    assert package.dependencies[..|package.dependencies|] == package.dependencies;
    forall name | name in dependents ensures dependents[name] == DependentsOf(earlier + [package], name) {
      assert DependentsOf(earlier + [package], name)
          == DependentsOf(earlier, name) + if name in package.dependencies then {package.name} else {};
    }
  }

  // ----- the worklist

  lemma ReachingIsInherited(packages: seq<Package>, name: string, dependency: string, touched: set<string>)
    requires Reaches(packages, dependency, touched) && DependsOn(packages, name, dependency)
    ensures Reaches(packages, name, touched)
  {
    var chain :| IsChain(packages, chain, touched) && chain[0] == dependency;
    assert IsChain(packages, [name] + chain, touched);
  }

  // A set that holds the touched members and every dependent of what it holds has every member that
  // reaches a touched one.
  lemma {:induction false} ClosedSetHoldsTheChain(packages: seq<Package>, closed: set<string>, touched: set<string>, chain: seq<string>)
    requires touched <= closed
    requires forall name | name in closed :: DependentsOf(packages, name) <= closed
    requires IsChain(packages, chain, touched)
    ensures chain[0] in closed
    decreases |chain|
  {
    if |chain| > 1 {
      assert IsChain(packages, chain[1..], touched);
      ClosedSetHoldsTheChain(packages, closed, touched, chain[1..]);
      assert DependsOn(packages, chain[0], chain[1]);
    }
  }

  method Listed(names: set<string>) returns (list: seq<string>)
    ensures forall name :: name in list <==> name in names
  {
    list := [];
    var left := names;
    while left != {}
      invariant left <= names
      invariant forall name :: name in list <==> name in names - left
      decreases left
    {
      var name :| name in left;
      list := list + [name];
      left := left - {name};
    }
  }

  // Everything taken or queued is a member that reaches a touched one; every touched member and every
  // dependent of a taken one is taken or queued.
  ghost predicate WorklistHolds(packages: seq<Package>, touched: set<string>, affected: set<string>, queued: set<string>) {
    && affected + queued <= NamesOf(packages)
    && (forall name | name in affected + queued :: Reaches(packages, name, touched))
    && touched <= affected + queued
    && (forall name | name in affected :: DependentsOf(packages, name) <= affected + queued)
  }

  lemma TouchedMembersReach(packages: seq<Package>, touched: set<string>)
    requires touched <= NamesOf(packages)
    ensures WorklistHolds(packages, touched, {}, touched)
  {
    forall name | name in touched ensures Reaches(packages, name, touched) {
      assert IsChain(packages, [name], touched);
    }
  }

  lemma TakingKeepsTheWorklist(packages: seq<Package>, touched: set<string>, affected: set<string>, queued: set<string>,
                               name: string)
    requires WorklistHolds(packages, touched, affected, queued + {name})
    ensures WorklistHolds(packages, touched, affected + {name}, queued + DependentsOf(packages, name))
  {
    assert name in affected + (queued + {name});
    forall other | other in DependentsOf(packages, name) ensures Reaches(packages, other, touched) && other in NamesOf(packages) {
      assert DependsOn(packages, other, name);
      ReachingIsInherited(packages, other, name, touched);
    }
  }

  lemma EmptyWorklistIsTheAnswer(packages: seq<Package>, touched: set<string>, affected: set<string>, name: string)
    requires WorklistHolds(packages, touched, affected, {})
    ensures name in affected <==> Reaches(packages, name, touched)
  {
    if Reaches(packages, name, touched) {
      var chain :| IsChain(packages, chain, touched) && chain[0] == name;
      assert affected + {} == affected;
      ClosedSetHoldsTheChain(packages, affected, touched, chain);
    } else {
      assert name in affected ==> name in affected + {};
    }
  }

  function Queued(queue: seq<string>): (names: set<string>) {
    set name | name in queue
  }

  lemma QueuedPop(queue: seq<string>)
    requires queue != []
    ensures Queued(queue) == Queued(queue[..|queue| - 1]) + {queue[|queue| - 1]}
  {
    assert queue == queue[..|queue| - 1] + [queue[|queue| - 1]];
  }

  lemma QueuedPush(queue: seq<string>, more: seq<string>, names: set<string>)
    requires forall name :: name in more <==> name in names
    ensures Queued(queue + more) == Queued(queue) + names
  {
  }

  // Terminates because each turn takes a name not seen before or shortens the queue.
  method CollectAffected(packages: seq<Package>, touched: set<string>, dependents: map<string, set<string>>)
    returns (affected: set<string>)
    requires touched <= NamesOf(packages)
    requires dependents.Keys == NamesOf(packages)
    requires forall name | name in dependents :: dependents[name] == DependentsOf(packages, name)
    ensures forall name :: name in affected <==> Reaches(packages, name, touched)
  {
    affected := {};
    var queue := Listed(touched);
    TouchedMembersReach(packages, touched);
    QueuedPush([], queue, touched);
    assert [] + queue == queue && Queued([]) + touched == touched;
    while queue != []
      invariant WorklistHolds(packages, touched, affected, Queued(queue))
      decreases NamesOf(packages) - affected, |queue|
    {
      var name, rest := queue[|queue| - 1], queue[..|queue| - 1];
      QueuedPop(queue);
      assert name in affected + Queued(queue);
      if name in affected {
        assert affected + Queued(queue) == affected + Queued(rest);
        queue := rest;
      } else {
        TakingKeepsTheWorklist(packages, touched, affected, Queued(rest), name);
        affected := affected + {name};
        var more := Listed(dependents[name]);
        QueuedPush(rest, more, dependents[name]);
        queue := rest + more;
      }
    }
    assert Queued(queue) == {};
    forall name ensures name in affected <==> Reaches(packages, name, touched) {
      EmptyWorklistIsTheAnswer(packages, touched, affected, name);
    }
  }

  lemma {:induction false} MembersAreNamed(packages: seq<Package>)
    ensures forall member | member in MembersOf(packages) :: member.name in NamesOf(packages)
    decreases |packages|
  {
    if packages != [] {
      var early, last := packages[..|packages| - 1], packages[|packages| - 1];
      MembersAreNamed(early);
      assert packages == early + [last];
      PutAddsOne(MembersOf(early), Member(last.name, last.directory));
    }
  }

  lemma {:induction false} PutAddsOne(members: seq<Member>, member: Member)
    ensures forall m | m in Put(members, member) :: m in members || m == member
  {
    if members != [] {
      PutAddsOne(members[1..], member);
    }
  }

  // Main result: a wide change builds everything; otherwise the packages printed are exactly those that
  // reach, through dependencies, the owner of a changed path, without the skipped ones.
  method AffectedFlags(changed: seq<string>, packages: seq<Package>) returns (flags: Flags)
    ensures flags.Workspace? <==> exists path | path in changed :: IsWide(path)
    ensures flags.Packages? ==> flags.names != {}
    ensures !flags.Workspace? ==>
              forall name :: name !in SKIP && Reaches(packages, name, Touched(MembersOf(packages), changed))
                        <==> flags.Packages? && name in flags.names
  {
    if exists path | path in changed :: IsWide(path) {
      return Workspace;
    }
    var members := CollectMembers(packages);
    var touched := CollectTouched(members, changed);
    MembersAreNamed(packages);
    forall path | path in changed && OwnerOf(members, path).Some? ensures OwnerOf(members, path).value in members {
      OwnerIsLongest(members, path);
    }
    if touched == {} {
      return Nothing;
    }
    var dependents := CollectDependents(packages);
    var affected := CollectAffected(packages, touched, dependents);
    var kept := affected - SKIP;
    if kept == {} {
      return Nothing;
    }
    return Packages(kept);
  }
}
