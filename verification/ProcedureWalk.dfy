/**
 * The walk that names every procedure by the keys above it (`walk` and `emit` in
 * `procedure-routers.ts`).
 */
module ProcedureWalk {
  import opened Wrappers
  import opened Seqs
  import opened Forests

  type Kind = string

  /** A settled forest: the trees among the candidates, and the kind of way in each chain ends as. */
  datatype Grove = Grove(candidates: Candidates, trees: set<Node>, endings: map<Node, Kind>, separator: string)
  {
    predicate IsTree(value: Node) {
      value in candidates && value in trees
    }

    ghost function Left(path: set<Node>): nat {
      |trees - path|
    }

    lemma EnteringShrinks(value: Node, path: set<Node>)
      ensures value in trees && value !in path ==> Left(path + {value}) < Left(path)
    {
      assert trees - (path + {value}) == trees - path - {value};
    }
  }

  /** What visiting one member came to. */
  datatype Visit = Dynamic | Ended(kind: Kind, address: string) | Nested | Cut | Unread(address: string)

  /** A key under the address above it. */
  function Under(g: Grove, prefix: string, key: string): string {
    if |prefix| == 0 then key else prefix + g.separator + key
  }

  function MembersOf(g: Grove, tree: Node): seq<Member> {
    if tree in g.candidates then g.candidates[tree].members else []
  }

  function Visits(g: Grove, members: seq<Member>, prefix: string, path: set<Node>): seq<Visit>
    decreases g.Left(path), 2, |members|
  {
    if |members| == 0 then []
    else VisitsOf(g, members[0], prefix, path) + Visits(g, members[1..], prefix, path)
  }

  function VisitsOf(g: Grove, member: Member, prefix: string, path: set<Node>): seq<Visit>
    decreases g.Left(path), 1
  {
    if member.key.None? then [Dynamic]
    else
      var address := Under(g, prefix, member.key.value);
      var value := member.value;
      if value in g.endings then [Ended(g.endings[value], address)]
      else if !g.IsTree(value) then [Unread(address)]
      else if value in path then [Cut]
      else
        g.EnteringShrinks(value, path);
        [Nested] + Visits(g, MembersOf(g, value), address, path + {value})
  }

  // ---- what is emitted ----

  datatype Procedure = Procedure(kind: Kind, address: string)

  /** The procedures a run of visits emits: each the first time it is met. */
  function Emitted(log: seq<Visit>): seq<Procedure> {
    if |log| == 0 then []
    else
      var before := Emitted(log[..|log| - 1]);
      var last := log[|log| - 1];
      if last.Ended? && Procedure(last.kind, last.address) !in before
      then before + [Procedure(last.kind, last.address)]
      else before
  }

  lemma {:induction false} EmittedOnce(log: seq<Visit>)
    ensures NoRepeats(Emitted(log))
    ensures forall p :: p in Emitted(log) <==> Ended(p.kind, p.address) in log
  {
    if |log| > 0 {
      EmittedOnce(log[..|log| - 1]);
      assert log == log[..|log| - 1] + [log[|log| - 1]];
    }
  }

  /** The addresses of the members read as neither. */
  function UnreadOf(log: seq<Visit>): seq<string> {
    if |log| == 0 then []
    else UnreadOf(log[..|log| - 1]) + (if log[|log| - 1].Unread? then [log[|log| - 1].address] else [])
  }

  function Count(log: seq<Visit>, what: Visit): nat {
    if |log| == 0 then 0 else Count(log[..|log| - 1], what) + (if log[|log| - 1] == what then 1 else 0)
  }

  /** The ways in met again at an address already emitted. */
  function Repeated(log: seq<Visit>): nat {
    if |log| == 0 then 0
    else
      var last := log[|log| - 1];
      Repeated(log[..|log| - 1]) +
      (if last.Ended? && Procedure(last.kind, last.address) in Emitted(log[..|log| - 1]) then 1 else 0)
  }

  /** Every member visited is accounted for exactly once. */
  lemma {:induction false} EveryVisitAccounted(log: seq<Visit>)
    ensures |log| == |Emitted(log)| + Repeated(log) + Count(log, Dynamic) + Count(log, Nested) + Count(log, Cut)
            + |UnreadOf(log)|
  {
    if |log| > 0 {
      EveryVisitAccounted(log[..|log| - 1]);
    }
  }

  /** The walk, its counters in place of the rows it reports. */
  class Reader {
    const g: Grove
    var entries: seq<Procedure>
    var seen: set<Procedure>
    var unread: seq<string>
    var dynamic: nat
    var members: nat
    ghost var log: seq<Visit>

    constructor (g: Grove)
      ensures Valid() && this.g == g && log == []
    {
      this.g := g;
      entries, seen, unread, dynamic, members, log := [], {}, [], 0, 0, [];
    }

    /** Everything kept is what the visits so far come to. */
    ghost predicate Valid()
      reads this
    {
      Keeps() && members == |log|
    }

    ghost predicate Keeps()
      reads this
    {
      && entries == Emitted(log)
      && (forall p :: p in seen <==> p in entries)
      && unread == UnreadOf(log)
      && dynamic == Count(log, Dynamic)
    }

    method Emit(address: string, kind: Kind)
      requires entries == Emitted(log) && (forall p :: p in seen <==> p in entries)
      modifies this`entries, this`seen
      ensures entries == Emitted(log + [Ended(kind, address)]) && (forall p :: p in seen <==> p in entries)
    {
      assert (log + [Ended(kind, address)])[..|log|] == log;
      var id := Procedure(kind, address);
      if id in seen {
        return;
      }
      seen := seen + {id};
      entries := entries + [id];
    }

    /** Visits the members of a tree in turn under one prefix. */
    method Walk(tree: Node, prefix: string, path: set<Node>)
      requires Valid()
      modifies this
      ensures Valid() && log == old(log) + Visits(g, MembersOf(g, tree), prefix, path)
      decreases g.Left(path), 2
    {
      var all := MembersOf(g, tree);
      assert all[0..] == all;
      for i := 0 to |all|
        invariant Valid()
        invariant log + Visits(g, all[i..], prefix, path) == old(log) + Visits(g, all, prefix, path)
      {
        assert all[i..][0] == all[i] && all[i..][1..] == all[i + 1..];
        Associates(log, VisitsOf(g, all[i], prefix, path), Visits(g, all[i + 1..], prefix, path));
        Visit(all[i], prefix, path);
      }
      ConcatEmpty(log, Visits(g, all[|all|..], prefix, path));
    }

    method Visit(member: Member, prefix: string, path: set<Node>)
      requires Valid()
      modifies this
      ensures Valid() && log == old(log) + VisitsOf(g, member, prefix, path)
      decreases g.Left(path), 1
    {
      members := members + 1;
      if member.key.None? {
        Logged(log, Dynamic);
        dynamic := dynamic + 1;
        log := log + [Dynamic];
        return;
      }
      var address := Under(g, prefix, member.key.value);
      var value := member.value;
      if value in g.endings {
        Logged(log, Ended(g.endings[value], address));
        Emit(address, g.endings[value]);
        log := log + [Ended(g.endings[value], address)];
        return;
      }
      if !g.IsTree(value) {
        Logged(log, Unread(address));
        unread := unread + [address];
        log := log + [Unread(address)];
        return;
      }
      GoInto(value, address, path);
    }

    /** A tree found among a tree's members, noted and walked. */
    method GoInto(value: Node, address: string, path: set<Node>)
      requires Keeps() && members == |log| + 1 && g.IsTree(value)
      modifies this
      ensures Valid()
      ensures log == old(log) + if value in path then [Cut]
              else [Nested] + Visits(g, MembersOf(g, value), address, path + {value})
      decreases g.Left(path), 0
    {
      // Already on the path: cut here, which bounds the recursion.
      if value in path {
        Logged(log, Cut);
        log := log + [Cut];
        return;
      }
      Logged(log, Nested);
      log := log + [Nested];
      g.EnteringShrinks(value, path);
      Walk(value, address, path + {value});
      Associates(old(log), [Nested], Visits(g, MembersOf(g, value), address, path + {value}));
    }

    /** Every root walked in turn. */
    method WalkRoots(roots: seq<Node>)
      requires Valid() && |log| == 0
      modifies this
      ensures Valid() && log == VisitsFrom(g, roots)
    {
      for i := 0 to |roots|
        invariant Valid() && log == VisitsFrom(g, roots[..i])
      {
        assert roots[..i + 1][..i] == roots[..i];
        Walk(roots[i], "", {roots[i]});
      }
      assert roots[..|roots|] == roots;
    }
  }

  function VisitsFrom(g: Grove, roots: seq<Node>): seq<Visit> {
    if |roots| == 0 then []
    else
      var last := roots[|roots| - 1];
      VisitsFrom(g, roots[..|roots| - 1]) + Visits(g, MembersOf(g, last), "", {last})
  }

  lemma Logged(log: seq<Visit>, visit: Visit)
    ensures !visit.Ended? ==> Emitted(log + [visit]) == Emitted(log)
    ensures UnreadOf(log + [visit]) == UnreadOf(log) + (if visit.Unread? then [visit.address] else [])
    ensures Count(log + [visit], Dynamic) == Count(log, Dynamic) + (if visit.Dynamic? then 1 else 0)
  {
    assert (log + [visit])[..|log|] == log;
    ConcatEmpty(UnreadOf(log), []);
  }
}
