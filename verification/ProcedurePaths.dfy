/**
 * What the walk emits, said without the walk: one procedure for each path of
 * keys from a root, through trees none of which is met twice, to a chain ending.
 */
module ProcedurePaths {
  import opened Wrappers
  import opened Seqs
  import opened Forests
  import opened ProcedureWalk

  /** A tree holds a value under a key. */
  ghost predicate KeyOf(g: Grove, tree: Node, key: string, value: Node) {
    exists m :: m in MembersOf(g, tree) && m.key == Some(key) && m.value == value
  }

  /** One step of a path: from a tree, by a key, to a tree held under it. */
  ghost predicate Enters(g: Grove, tree: Node, key: string, next: Node) {
    KeyOf(g, tree, key, next) && next !in g.endings && g.IsTree(next)
  }

  ghost predicate EndsAt(g: Grove, tree: Node, key: string, kind: Kind) {
    exists value :: KeyOf(g, tree, key, value) && value in g.endings && g.endings[value] == kind
  }

  /** A path of keys through distinct trees, the last key naming a way in. */
  ghost predicate IsKeyPath(g: Grove, trees: seq<Node>, keys: seq<string>, kind: Kind) {
    && |trees| == |keys| >= 1 && NoRepeats(trees)
    && (forall i | 0 <= i < |keys| - 1 :: Enters(g, trees[i], keys[i], trees[i + 1]))
    && EndsAt(g, trees[|trees| - 1], keys[|keys| - 1], kind)
  }

  /** The address under a prefix of what a path of keys names. */
  function Address(g: Grove, prefix: string, keys: seq<string>): string
    decreases |keys|
  {
    if |keys| == 0 then prefix else Address(g, Under(g, prefix, keys[0]), keys[1..])
  }

  /** The keys of an address joined by the separator, as a caller of it writes them. */
  function Joined(separator: string, keys: seq<string>): string {
    if |keys| == 0 then ""
    else if |keys| == 1 then keys[0]
    else keys[0] + separator + Joined(separator, keys[1..])
  }

  /**
   * An address is its keys joined, unless its first key is empty: then the
   * separator after it is missing, so the two differ exactly when there is a key
   * below it and a separator to miss.
   */
  lemma {:induction false} AddressIsJoinedKeys(g: Grove, keys: seq<string>)
    ensures Address(g, "", keys) == Joined(g.separator, keys)
            <==> |keys| <= 1 || |keys[0]| > 0 || |g.separator| == 0
  {
    if |keys| > 1 {
      if |keys[0]| > 0 {
        AddressUnder(g, keys[0], keys[1..]);
      } else {
        ShorterAddress(g, keys[1..]);
      }
    }
  }

  /** A way in under an empty key: what names it has no separator in front, though the keys joined begin with one. */
  lemma EmptyKeyLosesSeparator(g: Grove)
    requires |g.separator| > 0
    ensures Address(g, "", ["", "get"]) == "get"
    ensures Joined(g.separator, ["", "get"]) == g.separator + "get"
    ensures Address(g, "", ["", "get"]) != Joined(g.separator, ["", "get"])
  {
    var keys := ["", "get"];
    assert keys[1..] == ["get"] && |["get"][1..]| == 0;
    ConcatEmpty("", g.separator);
    assert |g.separator + "get"| > |"get"|;
  }

  lemma {:induction false} AddressUnder(g: Grove, prefix: string, keys: seq<string>)
    requires |prefix| > 0 && |keys| > 0
    ensures Address(g, prefix, keys) == prefix + g.separator + Joined(g.separator, keys)
    decreases |keys|
  {
    var next := Under(g, prefix, keys[0]);
    if |keys| > 1 {
      AddressUnder(g, next, keys[1..]);
      var rest := Joined(g.separator, keys[1..]);
      assert next + g.separator + rest == prefix + g.separator + (keys[0] + g.separator + rest);
    }
  }

  lemma {:induction false} ShorterAddress(g: Grove, keys: seq<string>)
    requires |keys| > 0
    ensures |Address(g, "", keys)| <= |Joined(g.separator, keys)|
    ensures |g.separator| == 0 ==> Address(g, "", keys) == Joined(g.separator, keys)
  {
    if |keys| > 1 {
      if |keys[0]| > 0 {
        AddressUnder(g, keys[0], keys[1..]);
      } else {
        ShorterAddress(g, keys[1..]);
      }
    }
  }

  // ---- from the walk to the paths ----

  /** A path that goes on from a walk already in some trees, into none of them again. */
  ghost predicate GoesOn(g: Grove, trees: seq<Node>, keys: seq<string>, kind: Kind, path: set<Node>) {
    IsKeyPath(g, trees, keys, kind) && forall i | 0 < i < |trees| :: trees[i] !in path
  }

  lemma {:induction false} EmittedHasPath(
      g: Grove, tree: Node, prefix: string, path: set<Node>, kind: Kind, address: string)
    returns (trees: seq<Node>, keys: seq<string>)
    requires tree in path && Ended(kind, address) in Visits(g, MembersOf(g, tree), prefix, path)
    ensures GoesOn(g, trees, keys, kind, path) && trees[0] == tree && address == Address(g, prefix, keys)
    decreases g.Left(path)
  {
    var member := MemberVisited(g, MembersOf(g, tree), prefix, path, kind, address);
    var key, value := member.key.value, member.value;
    assert KeyOf(g, tree, key, value);
    if value in g.endings {
      trees, keys := [tree], [key];
      assert Address(g, prefix, [key]) == Address(g, Under(g, prefix, key), []);
    } else {
      g.EnteringShrinks(value, path);
      var below, rest := EmittedHasPath(g, value, Under(g, prefix, key), path + {value}, kind, address);
      trees, keys := [tree] + below, [key] + rest;
      ConsTail(key, rest);
      LongerPath(g, tree, key, below, rest, kind, path);
    }
  }

  /** Putting a tree in front of a path that does not come back to it. */
  lemma LongerPath(g: Grove, tree: Node, key: string, trees: seq<Node>, keys: seq<string>, kind: Kind, path: set<Node>)
    requires tree in path && |trees| > 0 && trees[0] !in path
    requires Enters(g, tree, key, trees[0]) && GoesOn(g, trees, keys, kind, path + {trees[0]})
    ensures GoesOn(g, [tree] + trees, [key] + keys, kind, path)
  {
    var longer, all := [tree] + trees, [key] + keys;
    forall i | 0 <= i < |all| - 1 ensures Enters(g, longer[i], all[i], longer[i + 1]) {
      if i > 0 {
        assert Enters(g, trees[i - 1], keys[i - 1], trees[i]);
      }
    }
    assert tree !in trees;
    NoRepeatsConcat([tree], trees);
    assert longer[|longer| - 1] == trees[|trees| - 1] && all[|all| - 1] == keys[|keys| - 1];
  }

  lemma {:induction false} MemberVisited(
      g: Grove, members: seq<Member>, prefix: string, path: set<Node>, kind: Kind, address: string)
    returns (member: Member)
    requires Ended(kind, address) in Visits(g, members, prefix, path)
    ensures member in members && Ended(kind, address) in VisitsOf(g, member, prefix, path)
  {
    if Ended(kind, address) in VisitsOf(g, members[0], prefix, path) {
      member := members[0];
    } else {
      member := MemberVisited(g, members[1..], prefix, path, kind, address);
    }
  }

  lemma {:induction false} VisitedThroughMember(
      g: Grove, members: seq<Member>, member: Member, prefix: string, path: set<Node>, visit: Visit)
    requires member in members && visit in VisitsOf(g, member, prefix, path)
    ensures visit in Visits(g, members, prefix, path)
  {
    if member != members[0] {
      VisitedThroughMember(g, members[1..], member, prefix, path, visit);
    }
  }

  lemma {:induction false} PathIsEmitted(
      g: Grove, trees: seq<Node>, keys: seq<string>, prefix: string, path: set<Node>, kind: Kind)
    requires GoesOn(g, trees, keys, kind, path) && trees[0] in path
    ensures Ended(kind, Address(g, prefix, keys)) in Visits(g, MembersOf(g, trees[0]), prefix, path)
    decreases |keys|
  {
    var tree, key := trees[0], keys[0];
    var address := Under(g, prefix, key);
    if |keys| == 1 {
      var value :| KeyOf(g, tree, key, value) && value in g.endings && g.endings[value] == kind;
      var member :| member in MembersOf(g, tree) && member.key == Some(key) && member.value == value;
      assert keys[1..] == [];
      assert Address(g, prefix, keys) == address;
      VisitedThroughMember(g, MembersOf(g, tree), member, prefix, path, Ended(kind, address));
    } else {
      var next := trees[1];
      assert Enters(g, tree, key, next);
      var member :| member in MembersOf(g, tree) && member.key == Some(key) && member.value == next;
      ShorterPath(g, trees, keys, kind, path);
      PathIsEmitted(g, trees[1..], keys[1..], address, path + {next}, kind);
      g.EnteringShrinks(next, path);
      var visit := Ended(kind, Address(g, prefix, keys));
      assert visit in Visits(g, MembersOf(g, next), address, path + {next});
      VisitedThroughMember(g, MembersOf(g, tree), member, prefix, path, visit);
    }
  }

  lemma ShorterPath(g: Grove, trees: seq<Node>, keys: seq<string>, kind: Kind, path: set<Node>)
    requires GoesOn(g, trees, keys, kind, path) && |trees| > 1
    ensures GoesOn(g, trees[1..], keys[1..], kind, path + {trees[1]})
  {
    var rest, below := trees[1..], keys[1..];
    forall i | 0 <= i < |below| - 1 ensures Enters(g, rest[i], below[i], rest[i + 1]) {
      assert Enters(g, trees[i + 1], keys[i + 1], trees[i + 2]);
    }
    assert rest[|rest| - 1] == trees[|trees| - 1] && below[|below| - 1] == keys[|keys| - 1];
  }

  /** A path of keys from one of the roots. */
  ghost predicate NamesFrom(g: Grove, roots: seq<Node>, kind: Kind, address: string) {
    exists trees, keys :: IsKeyPath(g, trees, keys, kind) && trees[0] in roots && address == Address(g, "", keys)
  }

  /**
   * The procedures emitted from the roots are exactly those some path of keys
   * names, each once, however the trees hold one another.
   */
  lemma {:induction false} EmitsEveryKeyPath(g: Grove, roots: seq<Node>)
    ensures NoRepeats(Emitted(VisitsFrom(g, roots)))
    ensures forall p :: p in Emitted(VisitsFrom(g, roots)) <==> NamesFrom(g, roots, p.kind, p.address)
  {
    EmittedOnce(VisitsFrom(g, roots));
    forall p: Procedure ensures Ended(p.kind, p.address) in VisitsFrom(g, roots)
      <==> NamesFrom(g, roots, p.kind, p.address) {
      if Ended(p.kind, p.address) in VisitsFrom(g, roots) {
        var root := RootVisited(g, roots, Ended(p.kind, p.address));
        var trees, keys := EmittedHasPath(g, root, "", {root}, p.kind, p.address);
      }
      if NamesFrom(g, roots, p.kind, p.address) {
        var trees, keys :| IsKeyPath(g, trees, keys, p.kind) && trees[0] in roots && p.address == Address(g, "", keys);
        PathIsEmitted(g, trees, keys, "", {trees[0]}, p.kind);
        VisitedFromRoot(g, roots, trees[0], Ended(p.kind, p.address));
      }
    }
  }

  lemma {:induction false} RootVisited(g: Grove, roots: seq<Node>, visit: Visit) returns (root: Node)
    requires visit in VisitsFrom(g, roots)
    ensures root in roots && visit in Visits(g, MembersOf(g, root), "", {root})
  {
    var last := roots[|roots| - 1];
    if visit in Visits(g, MembersOf(g, last), "", {last}) {
      root := last;
    } else {
      root := RootVisited(g, roots[..|roots| - 1], visit);
    }
  }

  lemma {:induction false} VisitedFromRoot(g: Grove, roots: seq<Node>, root: Node, visit: Visit)
    requires root in roots && visit in Visits(g, MembersOf(g, root), "", {root})
    ensures visit in VisitsFrom(g, roots)
  {
    if roots[|roots| - 1] != root {
      assert root in roots[..|roots| - 1];
      VisitedFromRoot(g, roots[..|roots| - 1], root, visit);
    }
  }
}
