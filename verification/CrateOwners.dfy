/**
 The members of the workspace and what lies below their directories, told without the dictionary and the prefixes
 that scripts/ci-affected-crates.py tells them by.
 */
module CrateOwners {
  import opened AffectedCrates
  import opened Wrappers

  // The package whose directory a name ends up with.
  predicate IsLastOf(packages: seq<Package>, i: nat) {
    i < |packages| && forall j | i < j < |packages| :: packages[j].name != packages[i].name
  }

  function MemberOf(package: Package): Member {
    Member(package.name, package.directory)
  }

  predicate HasName(members: seq<Member>, name: string) {
    exists member | member in members :: member.name == name
  }

  predicate NamesDiffer(members: seq<Member>) {
    forall i, j | 0 <= i < j < |members| :: members[i].name != members[j].name
  }

  // One name is mentioned before another is.
  ghost predicate MentionedFirst(packages: seq<Package>, a: string, b: string) {
    exists k: nat :: MentionsBefore(packages, k, a, b)
  }

  predicate MentionsBefore(packages: seq<Package>, k: nat, a: string, b: string) {
    k < |packages| && packages[k].name == a && forall l | 0 <= l <= k :: packages[l].name != b
  }

  lemma HasNameFromTheHead(members: seq<Member>, name: string)
    requires members != []
    ensures HasName(members, name) <==> members[0].name == name || HasName(members[1..], name)
  {
    assert members == [members[0]] + members[1..];
    assert members[0] in members;
  }

  // An entry keeps its place and its name, and a new one goes last.
  lemma {:induction false} PutKeepsPlaces(members: seq<Member>, member: Member)
    ensures var after := Put(members, member);
            && |after| == |members| + (if HasName(members, member.name) then 0 else 1)
            && (forall i | 0 <= i < |members| :: after[i].name == members[i].name)
            && (!HasName(members, member.name) ==> after[|members|] == member)
  {
    if members != [] {
      HasNameFromTheHead(members, member.name);
      if members[0].name != member.name {
        PutKeepsPlaces(members[1..], member);
        assert forall i | 0 < i < |members| :: members[i] == members[1..][i - 1];
      }
    }
  }

  lemma PutKeepsNamesApart(members: seq<Member>, member: Member)
    requires NamesDiffer(members)
    ensures NamesDiffer(Put(members, member))
  {
    PutKeepsPlaces(members, member);
    forall i | 0 <= i < |members| ensures members[i].name == member.name ==> HasName(members, member.name) {
      assert members[i] in members;
    }
  }

  lemma RestHasOtherNames(members: seq<Member>)
    requires members != [] && NamesDiffer(members)
    ensures NamesDiffer(members[1..]) && forall m | m in members[1..] :: m.name != members[0].name
  {
    assert forall i | 0 < i < |members| :: members[i] == members[1..][i - 1];
  }

  lemma {:induction false} PutHolds(members: seq<Member>, member: Member, m: Member)
    requires NamesDiffer(members)
    ensures m in Put(members, member) <==> m == member || (m in members && m.name != member.name)
  {
    if members != [] {
      RestHasOtherNames(members);
      assert m in members <==> m == members[0] || m in members[1..];
      if members[0].name != member.name {
        PutHolds(members[1..], member, m);
      }
    }
  }

  lemma {:induction false} MembersHaveTheNames(packages: seq<Package>, name: string)
    ensures NamesDiffer(MembersOf(packages))
    ensures HasName(MembersOf(packages), name) <==> name in NamesOf(packages)
    decreases |packages|
  {
    if packages != [] {
      var early, last := packages[..|packages| - 1], packages[|packages| - 1];
      var before := MembersOf(early);
      MembersHaveTheNames(early, name);
      PutKeepsNamesApart(before, MemberOf(last));
      PutKeepsNames(before, MemberOf(last), name);
      NamesWithOneMore(early, last, name);
      assert packages == early + [last];
    }
  }

  lemma NamesWithOneMore(early: seq<Package>, last: Package, name: string)
    ensures name in NamesOf(early + [last]) <==> name in NamesOf(early) || name == last.name
  {
    var packages := early + [last];
    assert packages[|early|] == last;
    assert forall package :: package in packages <==> package in early || package == last;
  }

  lemma PutKeepsNames(members: seq<Member>, member: Member, name: string)
    requires NamesDiffer(members)
    ensures HasName(Put(members, member), name) <==> HasName(members, name) || name == member.name
  {
    var after := Put(members, member);
    PutHolds(members, member, member);
    if m :| m in members && m.name == name {
      PutHolds(members, member, m);
      assert m in after || member in after;
    }
    if m :| m in after && m.name == name {
      PutHolds(members, member, m);
    }
  }

  lemma EarlierMentionStays(packages: seq<Package>, a: string, b: string)
    requires packages != [] && MentionedFirst(packages[..|packages| - 1], a, b)
    ensures MentionedFirst(packages, a, b)
  {
    var k: nat :| MentionsBefore(packages[..|packages| - 1], k, a, b);
    assert forall l | 0 <= l <= k :: packages[l] == packages[..|packages| - 1][l];
    assert MentionsBefore(packages, k, a, b);
  }

  lemma NewNameIsMentionedLast(packages: seq<Package>, a: string)
    requires packages != [] && a in NamesOf(packages[..|packages| - 1])
    requires packages[|packages| - 1].name !in NamesOf(packages[..|packages| - 1])
    ensures MentionedFirst(packages, a, packages[|packages| - 1].name)
  {
    var early, b := packages[..|packages| - 1], packages[|packages| - 1].name;
    var package :| package in early && package.name == a;
    var k :| 0 <= k < |early| && early[k] == package;
    forall l | 0 <= l <= k ensures packages[l].name != b {
      assert packages[l] == early[l] && early[l] in early;
    }
    assert MentionsBefore(packages, k, a, b);
  }

  // The members stand in the order in which their names are first mentioned.
  lemma {:induction false} MembersStandInOrder(packages: seq<Package>, i: nat, j: nat)
    requires i < j < |MembersOf(packages)|
    ensures MentionedFirst(packages, MembersOf(packages)[i].name, MembersOf(packages)[j].name)
    decreases |packages|
  {
    var early, last := packages[..|packages| - 1], packages[|packages| - 1];
    var before, after := MembersOf(early), MembersOf(packages);
    MembersHaveTheNames(early, last.name);
    PutKeepsPlaces(before, MemberOf(last));
    if j < |before| {
      MembersStandInOrder(early, i, j);
      EarlierMentionStays(packages, after[i].name, after[j].name);
    } else {
      assert before[i] in before;
      MembersHaveTheNames(early, before[i].name);
      NewNameIsMentionedLast(packages, before[i].name);
    }
  }

  // Package `i` is the last of its name, and this is its member.
  predicate MakesMember(packages: seq<Package>, member: Member, i: nat) {
    IsLastOf(packages, i) && MemberOf(packages[i]) == member
  }

  // Main result: the members are the packages, one for each name, with the directory of the last package of the name.
  lemma {:induction false} MembersAreThePackages(packages: seq<Package>, member: Member)
    ensures NamesDiffer(MembersOf(packages))
    ensures member in MembersOf(packages) <==> exists i: nat :: MakesMember(packages, member, i)
    decreases |packages|
  {
    MembersHaveTheNames(packages, member.name);
    if packages != [] {
      var early, last := packages[..|packages| - 1], packages[|packages| - 1];
      assert packages == early + [last];
      MembersHaveTheNames(early, member.name);
      MembersAreThePackages(early, member);
      PutHolds(MembersOf(early), MemberOf(last), member);
      LastPackages(early, last, member);
    }
  }

  lemma EarlierPackageStaysLast(early: seq<Package>, last: Package, member: Member, i: nat)
    requires i < |early|
    ensures MakesMember(early + [last], member, i) <==> MakesMember(early, member, i) && member.name != last.name
  {
    var packages := early + [last];
    assert forall j | 0 <= j < |early| :: packages[j] == early[j];
    assert packages[|early|] == last;
  }

  lemma LastPackages(early: seq<Package>, last: Package, member: Member)
    ensures (exists i: nat :: MakesMember(early + [last], member, i))
       <==> (|| member == MemberOf(last)
             || (member.name != last.name && exists i: nat :: MakesMember(early, member, i)))
  {
    assert MakesMember(early + [last], MemberOf(last), |early|);
    if i: nat :| MakesMember(early + [last], member, i) {
      if i < |early| {
        EarlierPackageStaysLast(early, last, member, i);
      }
    }
    if member.name != last.name {
      if i: nat :| MakesMember(early, member, i) {
        EarlierPackageStaysLast(early, last, member, i);
      }
    }
  }

  // ----- what lies below a directory

  // The parts of a path between its slashes.
  function Segments(path: string): (segments: seq<string>)
    ensures segments != []
  {
    if path == [] then [[]]
    else
      var rest := Segments(path[1..]);
      if path[0] == '/' then [[]] + rest else [[path[0]] + rest[0]] + rest[1..]
  }

  predicate BeginsWith(whole: seq<string>, start: seq<string>) {
    |start| <= |whole| && forall i | 0 <= i < |start| :: whole[i] == start[i]
  }

  // A directory covers itself and what lies below it, part by part: never a path that only shares its letters.
  lemma {:induction false} DirectoriesCoverByParts(directory: string, path: string)
    ensures Covers(directory, path) <==> BeginsWith(Segments(path), Segments(directory))
    decreases |directory|
  {
    if directory == [] {
      assert directory + "/" == "/";
      assert path != [] ==> ("/" <= path <==> path[0] == '/');
    } else if path == [] {
      assert directory[0] != '/' ==> |Segments(directory)[0]| > 0;
    } else if directory[0] != path[0] {
      OtherFirstLetter(directory, path);
    } else {
      var below, rest := directory[1..], path[1..];
      DirectoriesCoverByParts(below, rest);
      SameFirstLetter(directory, path);
      assert directory == [directory[0]] + below && path == [path[0]] + rest;
      assert directory + "/" == [directory[0]] + (below + "/");
      assert (directory + "/" <= path) <==> (below + "/" <= rest);
    }
  }

  lemma OtherFirstLetter(directory: string, path: string)
    requires directory != [] && path != [] && directory[0] != path[0]
    ensures !Covers(directory, path) && !BeginsWith(Segments(path), Segments(directory))
  {
    assert directory[0] != '/' ==> Segments(directory)[0][0] == directory[0];
    assert path[0] != '/' ==> Segments(path)[0][0] == path[0];
    assert (directory + "/")[0] == directory[0];
  }

  lemma SameFirstLetter(directory: string, path: string)
    requires directory != [] && path != [] && directory[0] == path[0]
    ensures BeginsWith(Segments(path), Segments(directory)) <==> BeginsWith(Segments(path[1..]), Segments(directory[1..]))
  {
    var start, whole := Segments(directory[1..]), Segments(path[1..]);
    if directory[0] == '/' {
      BeginsWithOneMore([], whole, [], start);
    } else {
      SameLetterFirst(directory[0], whole[0], start[0]);
      BeginsWithOneMore([path[0]] + whole[0], whole[1..], [directory[0]] + start[0], start[1..]);
      BeginsWithOneMore(whole[0], whole[1..], start[0], start[1..]);
      assert whole == [whole[0]] + whole[1..] && start == [start[0]] + start[1..];
    }
  }

  lemma SameLetterFirst(c: char, a: string, b: string)
    ensures [c] + a == [c] + b <==> a == b
  {
    assert ([c] + a)[1..] == a && ([c] + b)[1..] == b;
  }

  lemma BeginsWithOneMore(a: string, whole: seq<string>, b: string, start: seq<string>)
    ensures BeginsWith([a] + whole, [b] + start) <==> a == b && BeginsWith(whole, start)
  {
    var w, s := [a] + whole, [b] + start;
    assert w[0] == a && s[0] == b;
    assert forall i | 0 <= i < |whole| :: w[i + 1] == whole[i];
    assert forall i | 0 <= i < |start| :: s[i + 1] == start[i];
    if BeginsWith(w, s) {
      forall i | 0 <= i < |start| ensures whole[i] == start[i] {
        assert w[i + 1] == s[i + 1];
      }
    }
  }

  // A change rebuilds everything exactly when its path is one of the wide beginnings with anything, or nothing, after it.
  lemma WidePathsBegin(path: string)
    ensures IsWide(path) <==> exists prefix, rest: string | prefix in WIDE :: path == prefix + rest
  {
    if IsWide(path) {
      var prefix :| prefix in WIDE && prefix <= path;
      assert path == prefix + path[|prefix|..];
    }
    if prefix, rest: string :| prefix in WIDE && path == prefix + rest {
      assert prefix <= path;
    }
  }
}
