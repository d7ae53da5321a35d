/**
  Replica listing (`list_replicas`): the requested identifiers are resolved
  to files — collections through a work-list walk of their contents — and
  the matching replica rows are grouped per file and per RSE, each RSE with
  the file names its protocols give.
 */
module Listing {
  import opened ReplicaTypes
  import opened Collections

  /** A transfer protocol an RSE offers; `spaceToken` is None when the attribute is absent. */
  datatype Protocol = Protocol(scheme: string, spaceToken: Option<string>)

  /**
    One file of the listing: size and checksums from one of its replica rows,
    the physical names per RSE, and the space token of an `srm` protocol
    (None when no selected protocol was `srm`).
   */
  datatype FileEntry = FileEntry(
    bytes: int,
    md5: Option<string>,
    adler32: Option<string>,
    rses: map<RseName, seq<string>>,
    spaceToken: Option<Option<string>>)

  // ---------------------------------------------------------------------
  // Resolving collections

  /**
    A witness that the containment graph has no cycle through collections:
    every edge to a collection child goes down in rank.
   */
  predicate Ranked(edges: set<Edge>, rank: Did -> nat)
  {
    forall e :: e in edges && e.childType != FILE ==> rank(e.child) < rank(e.parent)
  }

  /** File `f` is reached from `d` through a chain of collection edges ending in a file edge. */
  predicate Below(edges: set<Edge>, rank: Did -> nat, d: Did, f: Did)
    decreases rank(d)
  {
    exists e :: e in edges && e.parent == d &&
      ((e.childType == FILE && e.child == f) ||
       (e.childType != FILE && rank(e.child) < rank(d) && Below(edges, rank, e.child, f)))
  }

  /** The files reached from collection `d`. */
  function FilesBelow(edges: set<Edge>, rank: Did -> nat, d: Did): set<Did>
  {
    set e | e in edges && e.childType == FILE && Below(edges, rank, d, e.child) :: e.child
  }

  function ChildrenOf(edges: set<Edge>, p: Did): set<Edge>
  {
    set e | e in edges && e.parent == p
  }

  /** What an edge still to be visited contributes: its file child, or the files below its collection child. */
  predicate Contributes(edges: set<Edge>, rank: Did -> nat, e: Edge, f: Did)
  {
    (e.childType == FILE && e.child == f) || (e.childType != FILE && f in FilesBelow(edges, rank, e.child))
  }

  ghost predicate InTodo(edges: set<Edge>, rank: Did -> nat, todo: set<Edge>, f: Did)
  {
    exists e :: e in todo && Contributes(edges, rank, e, f)
  }

  ghost predicate InStack(edges: set<Edge>, rank: Did -> nat, stack: seq<Did>, f: Did)
  {
    exists i :: 0 <= i < |stack| && f in FilesBelow(edges, rank, stack[i])
  }

  /** The files below a collection are those its children contribute. */
  lemma BelowUnfold(edges: set<Edge>, rank: Did -> nat, p: Did, f: Did)
    requires Ranked(edges, rank)
    ensures f in FilesBelow(edges, rank, p) <==> InTodo(edges, rank, ChildrenOf(edges, p), f)
  {
    if f in FilesBelow(edges, rank, p) {
      var e :| e in edges && e.childType == FILE && Below(edges, rank, p, e.child) && e.child == f;
      var e' :| e' in edges && e'.parent == p &&
                ((e'.childType == FILE && e'.child == f) ||
                 (e'.childType != FILE && rank(e'.child) < rank(p) && Below(edges, rank, e'.child, f)));
      assert e' in ChildrenOf(edges, p);
      if e'.childType != FILE {
        assert f in FilesBelow(edges, rank, e'.child);
      }
    }
    if InTodo(edges, rank, ChildrenOf(edges, p), f) {
      var e' :| e' in ChildrenOf(edges, p) && Contributes(edges, rank, e', f);
      if e'.childType == FILE {
        assert Below(edges, rank, p, e'.child);
      } else {
        var e :| e in edges && e.childType == FILE && Below(edges, rank, e'.child, e.child) && e.child == f;
        assert Below(edges, rank, p, f);
      }
    }
  }

  /** Whatever a child contributes lies below its parent. */
  lemma ContributesBelow(edges: set<Edge>, rank: Did -> nat, p: Did, e: Edge)
    requires Ranked(edges, rank) && e in ChildrenOf(edges, p)
    ensures e.childType == FILE ==> e.child in FilesBelow(edges, rank, p)
    ensures e.childType != FILE ==> FilesBelow(edges, rank, e.child) <= FilesBelow(edges, rank, p)
  {
    forall f | Contributes(edges, rank, e, f)
      ensures f in FilesBelow(edges, rank, p)
    {
      BelowUnfold(edges, rank, p, f);
    }
  }

  lemma InStackPop(edges: set<Edge>, rank: Did -> nat, stack: seq<Did>, f: Did)
    requires stack != []
    ensures InStack(edges, rank, stack, f) <==>
            InStack(edges, rank, stack[..|stack| - 1], f) || f in FilesBelow(edges, rank, stack[|stack| - 1])
  {
    var n := |stack| - 1;
    if InStack(edges, rank, stack, f) {
      var i :| 0 <= i < |stack| && f in FilesBelow(edges, rank, stack[i]);
      if i < n { assert stack[..n][i] == stack[i]; }
    }
    if InStack(edges, rank, stack[..n], f) {
      var i :| 0 <= i < n && f in FilesBelow(edges, rank, stack[..n][i]);
      assert stack[i] == stack[..n][i];
    }
  }

  lemma InStackPush(edges: set<Edge>, rank: Did -> nat, stack: seq<Did>, c: Did, f: Did)
    ensures InStack(edges, rank, stack + [c], f) <==> InStack(edges, rank, stack, f) || f in FilesBelow(edges, rank, c)
  {
    InStackPop(edges, rank, stack + [c], f);
    assert (stack + [c])[..|stack|] == stack;
  }

  // Termination of the walk: the sum of (|edges| + 1) ^ rank over the stack.

  /** `n` copies of `c` added up; kept recursive so that the solver sees no multiplication. */
  function Times(n: nat, c: nat): (r: nat)
    ensures n >= 1 ==> r >= c
  {
    if n == 0 then 0 else Times(n - 1, c) + c
  }

  function Pow(b: nat, n: nat): (r: nat)
    ensures b >= 1 ==> r >= 1
  {
    if n == 0 then 1 else Times(b, Pow(b, n - 1))
  }

  lemma {:induction false} PowMono(b: nat, m: nat, n: nat)
    requires b >= 1 && m <= n
    ensures Pow(b, m) <= Pow(b, n)
    decreases n
  {
    if m < n {
      PowMono(b, m, n - 1);
    }
  }

  lemma {:induction false} TimesMono(x: nat, y: nat, c: nat)
    requires x <= y
    ensures Times(x, c) <= Times(y, c)
    decreases y - x
  {
    if x < y {
      TimesMono(x, y - 1, c);
    }
  }

  /** Trading one unit of the work set for at most `cap` more stack weight keeps the bound. */
  lemma WeightStep(w: nat, w': nat, n: nat, cap: nat, bound: int)
    requires n >= 1 && w + Times(n, cap) <= bound && w' <= w + cap
    ensures w' + Times(n - 1, cap) <= bound
  {
  }

  /** Fewer than `b` children, each weighing at most b^(r-1), weigh less than their parent's b^r. */
  lemma ChildrenLighter(b: nat, r: nat, count: nat, cap: nat)
    requires count < b && cap == (if r == 0 then 0 else Pow(b, r - 1))
    ensures Times(count, cap) < Pow(b, r)
  {
    if r > 0 {
      TimesMono(count, b - 1, cap);
      assert Pow(b, r) == Times(b, cap) == Times(b - 1, cap) + cap;
    } else {
      TimesZero(count);
    }
  }

  lemma {:induction false} TimesZero(n: nat)
    ensures Times(n, 0) == 0
  {
    if n > 0 {
      TimesZero(n - 1);
    }
  }

  ghost function Weight(stack: seq<Did>, rank: Did -> nat, b: nat): nat
  {
    if stack == [] then 0 else Weight(stack[..|stack| - 1], rank, b) + Pow(b, rank(stack[|stack| - 1]))
  }

  lemma WeightPush(stack: seq<Did>, rank: Did -> nat, b: nat, c: Did)
    ensures Weight(stack + [c], rank, b) == Weight(stack, rank, b) + Pow(b, rank(c))
  {
    assert (stack + [c])[..|stack|] == stack;
  }

  /** Every identifier on the stack lies below `d`. */
  predicate StackBelow(edges: set<Edge>, rank: Did -> nat, stack: seq<Did>, d: Did)
  {
    forall i :: 0 <= i < |stack| ==> FilesBelow(edges, rank, stack[i]) <= FilesBelow(edges, rank, d)
  }

  /**
    The work-list walk of one collection: pop an identifier, visit its
    contents, keep file children, push collection children. It yields exactly
    the files below the collection.
   */
  method ExpandCollection(edges: set<Edge>, d: Did, ghost rank: Did -> nat) returns (files: set<Did>)
    requires Ranked(edges, rank)
    ensures files == FilesBelow(edges, rank, d)
  {
    var stack := [d];
    files := {};
    forall f | f in FilesBelow(edges, rank, d)
      ensures InStack(edges, rank, stack, f)
    {
      assert stack[0] == d;
    }
    while stack != []
      invariant StackBelow(edges, rank, stack, d)
      invariant files <= FilesBelow(edges, rank, d)
      invariant forall f :: f in FilesBelow(edges, rank, d) ==> f in files || InStack(edges, rank, stack, f)
      decreases Weight(stack, rank, |edges| + 1)
    {
      var p := stack[|stack| - 1];
      ghost var before := stack;
      stack := stack[..|stack| - 1];
      forall f | f in FilesBelow(edges, rank, d)
        ensures f in files || InStack(edges, rank, stack, f) || InTodo(edges, rank, ChildrenOf(edges, p), f)
      {
        InStackPop(edges, rank, before, f);
        BelowUnfold(edges, rank, p, f);
      }
      assert FilesBelow(edges, rank, before[|before| - 1]) <= FilesBelow(edges, rank, d);
      stack, files := VisitContents(edges, d, p, stack, files, rank);
    }
  }

  /**
    The inner loop of the walk: each content row of `p` either adds a file or
    pushes a collection. Nothing below `d` is lost, nothing else is added,
    and the stack gets lighter than it was with `p` on top.
   */
  method VisitContents(edges: set<Edge>, d: Did, p: Did, stack0: seq<Did>, files0: set<Did>, ghost rank: Did -> nat)
    returns (stack: seq<Did>, files: set<Did>)
    requires Ranked(edges, rank)
    requires FilesBelow(edges, rank, p) <= FilesBelow(edges, rank, d)
    requires StackBelow(edges, rank, stack0, d) && files0 <= FilesBelow(edges, rank, d)
    ensures StackBelow(edges, rank, stack, d) && files <= FilesBelow(edges, rank, d)
    ensures forall f :: f in FilesBelow(edges, rank, d) &&
                        (f in files0 || InStack(edges, rank, stack0, f) || InTodo(edges, rank, ChildrenOf(edges, p), f)) ==>
                        f in files || InStack(edges, rank, stack, f)
    ensures Weight(stack, rank, |edges| + 1) < Weight(stack0, rank, |edges| + 1) + Pow(|edges| + 1, rank(p))
  {
    ghost var b := |edges| + 1;
    stack, files := stack0, files0;
    var todo := ChildrenOf(edges, p);
    ghost var all := todo;
    ghost var cap := if rank(p) == 0 then 0 else Pow(b, rank(p) - 1);
    SubsetCard(all, edges);
    ChildrenLighter(b, rank(p), |all|, cap);
    while todo != {}
      invariant todo <= all
      invariant StackBelow(edges, rank, stack, d) && files <= FilesBelow(edges, rank, d)
      invariant forall f :: f in FilesBelow(edges, rank, d) &&
                            (f in files0 || InStack(edges, rank, stack0, f) || InTodo(edges, rank, all, f)) ==>
                            f in files || InStack(edges, rank, stack, f) || InTodo(edges, rank, todo, f)
      invariant Weight(stack, rank, b) + Times(|todo|, cap) <= Weight(stack0, rank, b) + Times(|all|, cap)
      decreases todo
    {
      var e :| e in todo;
      var stack', files' := VisitOne(edges, d, p, e, stack, files, rank);
      VisitStep(edges, rank, todo, e, files, stack, files', stack');
      assert |todo - {e}| == |todo| - 1;
      WeightStep(Weight(stack, rank, b), Weight(stack', rank, b), |todo|, cap, Weight(stack0, rank, b) + Times(|all|, cap));
      stack, files := stack', files';
      todo := todo - {e};
    }
  }

  /** One content row of `p`: keep a file child, push a collection child. */
  method VisitOne(edges: set<Edge>, d: Did, p: Did, e: Edge, stack: seq<Did>, files: set<Did>, ghost rank: Did -> nat)
    returns (stack': seq<Did>, files': set<Did>)
    requires Ranked(edges, rank) && e in ChildrenOf(edges, p)
    requires FilesBelow(edges, rank, p) <= FilesBelow(edges, rank, d)
    requires StackBelow(edges, rank, stack, d) && files <= FilesBelow(edges, rank, d)
    ensures StackBelow(edges, rank, stack', d) && files' <= FilesBelow(edges, rank, d)
    ensures e.childType == FILE ==> files' == files + {e.child} && stack' == stack
    ensures e.childType != FILE ==>
              && files' == files
              && forall f :: InStack(edges, rank, stack', f) <==> InStack(edges, rank, stack, f) || f in FilesBelow(edges, rank, e.child)
    ensures Weight(stack', rank, |edges| + 1) <= Weight(stack, rank, |edges| + 1) + (if rank(p) == 0 then 0 else Pow(|edges| + 1, rank(p) - 1))
  {
    ContributesBelow(edges, rank, p, e);
    if e.childType == FILE {
      stack', files' := stack, files + {e.child};
    } else {
      PushChild(edges, rank, d, p, stack, e.child);
      WeightPush(stack, rank, |edges| + 1, e.child);
      PowMono(|edges| + 1, rank(e.child), rank(p) - 1);
      stack', files' := stack + [e.child], files;
    }
  }

  /** Visiting one content row moves what it contributes from the work set to the files or the stack. */
  lemma VisitStep(edges: set<Edge>, rank: Did -> nat, todo: set<Edge>, e: Edge,
                  files: set<Did>, stack: seq<Did>, files': set<Did>, stack': seq<Did>)
    requires e in todo
    requires e.childType == FILE ==> files' == files + {e.child} && stack' == stack
    requires e.childType != FILE ==>
               && files' == files
               && forall f :: InStack(edges, rank, stack', f) <==> InStack(edges, rank, stack, f) || f in FilesBelow(edges, rank, e.child)
    ensures forall f :: f in files || InStack(edges, rank, stack, f) || InTodo(edges, rank, todo, f) ==>
                        f in files' || InStack(edges, rank, stack', f) || InTodo(edges, rank, todo - {e}, f)
  {
    forall f | InTodo(edges, rank, todo, f)
      ensures f in files' || InStack(edges, rank, stack', f) || InTodo(edges, rank, todo - {e}, f)
    {
      var g :| g in todo && Contributes(edges, rank, g, f);
      if g != e {
        assert g in todo - {e};
      }
    }
  }

  /** Pushing a collection child of `p` keeps the stack below `d` and adds the child's files to it. */
  lemma PushChild(edges: set<Edge>, rank: Did -> nat, d: Did, p: Did, stack: seq<Did>, c: Did)
    requires FilesBelow(edges, rank, c) <= FilesBelow(edges, rank, p) <= FilesBelow(edges, rank, d)
    requires StackBelow(edges, rank, stack, d)
    ensures StackBelow(edges, rank, stack + [c], d)
    ensures forall f :: InStack(edges, rank, stack + [c], f) <==> InStack(edges, rank, stack, f) || f in FilesBelow(edges, rank, c)
  {
    forall f ensures InStack(edges, rank, stack + [c], f) <==> InStack(edges, rank, stack, f) || f in FilesBelow(edges, rank, c)
    {
      InStackPush(edges, rank, stack, c, f);
    }
    forall i | 0 <= i < |stack + [c]| ensures FilesBelow(edges, rank, (stack + [c])[i]) <= FilesBelow(edges, rank, d)
    {
      if i < |stack| { assert (stack + [c])[i] == stack[i]; }
    }
  }

  // ---------------------------------------------------------------------
  // Resolving a request

  function FilesOf(dids: map<Did, DidRecord>, edges: set<Edge>, rank: Did -> nat, d: Did): set<Did>
    requires d in dids
  {
    if dids[d].didType == FILE then {d} else FilesBelow(edges, rank, d)
  }

  /** The files of a request, in request order; the first unknown identifier is the error. */
  function RequestFiles(dids: map<Did, DidRecord>, edges: set<Edge>, rank: Did -> nat, request: seq<Did>): (r: Result<set<Did>>)
    ensures r.Ok? <==> forall d :: d in request ==> d in dids
    ensures r.Err? ==> r.error.DataIdentifierNotFound? && r.error.did in request && r.error.did !in dids
    ensures r.Ok? ==> forall f :: f in r.value <==> exists d :: d in request && d in dids && f in FilesOf(dids, edges, rank, d)
  {
    if request == [] then Ok({})
    else
      var n := |request| - 1;
      assert request == request[..n] + [request[n]];
      match RequestFiles(dids, edges, rank, request[..n])
      case Err(e) => Err(e)
      case Ok(files) =>
        if request[n] !in dids then Err(DataIdentifierNotFound(request[n]))
        else Ok(files + FilesOf(dids, edges, rank, request[n]))
  }

  // ---------------------------------------------------------------------
  // Grouping the replica rows

  function AllowedStates(unavailable: bool): set<ReplicaState>
  {
    if unavailable then {AVAILABLE, UNAVAILABLE} else {AVAILABLE}
  }

  /** The replica rows the listing reads: rows of the resolved files in an allowed state. */
  function Hits(rows: map<ReplicaKey, Replica>, files: set<Did>, unavailable: bool): set<ReplicaKey>
  {
    set k | k in rows && k.did in files && rows[k].state in AllowedStates(unavailable)
  }

  /** A protocol is used when no scheme filter is given or its scheme is listed. */
  predicate Selected(p: Protocol, schemes: seq<string>)
  {
    schemes == [] || p.scheme in schemes
  }

  /** The physical names of a file at an RSE, one per selected protocol, in protocol order. */
  function Pfns(ps: seq<Protocol>, schemes: seq<string>, rse: RseName, did: Did,
                lfn2pfn: (RseName, Did, Protocol) -> string): seq<string>
  {
    if ps == [] then []
    else
      var n := |ps| - 1;
      Pfns(ps[..n], schemes, rse, did, lfn2pfn) + (if Selected(ps[n], schemes) then [lfn2pfn(rse, did, ps[n])] else [])
  }

  /** The space token of the last selected `srm` protocol, if there is one. */
  function LastSrm(ps: seq<Protocol>, schemes: seq<string>): (r: Option<Option<string>>)
    ensures r.Some? <==> exists p :: p in ps && Selected(p, schemes) && p.scheme == "srm"
    ensures r.Some? ==> exists p :: p in ps && Selected(p, schemes) && p.scheme == "srm" && r.value == p.spaceToken
  {
    if ps == [] then None
    else
      var n := |ps| - 1;
      assert ps == ps[..n] + [ps[n]];
      if Selected(ps[n], schemes) && ps[n].scheme == "srm" then Some(ps[n].spaceToken)
      else LastSrm(ps[..n], schemes)
  }

  /**
    The names of a file at an RSE are exactly those of its selected
    protocols: each comes from a selected protocol, each selected protocol
    contributes its name, and without a scheme filter there is one name per
    protocol.
   */
  lemma {:induction false} PfnsSpec(ps: seq<Protocol>, schemes: seq<string>, rse: RseName, did: Did,
                                    lfn2pfn: (RseName, Did, Protocol) -> string)
    ensures |Pfns(ps, schemes, rse, did, lfn2pfn)| <= |ps|
    ensures schemes == [] ==> |Pfns(ps, schemes, rse, did, lfn2pfn)| == |ps|
    ensures forall x :: x in Pfns(ps, schemes, rse, did, lfn2pfn) ==>
              exists p :: p in ps && Selected(p, schemes) && x == lfn2pfn(rse, did, p)
    ensures forall p :: p in ps && Selected(p, schemes) ==> lfn2pfn(rse, did, p) in Pfns(ps, schemes, rse, did, lfn2pfn)
  {
    if ps != [] {
      var n := |ps| - 1;
      PfnsSpec(ps[..n], schemes, rse, did, lfn2pfn);
      assert ps == ps[..n] + [ps[n]];
    }
  }

  /** The protocol loop for one replica: collect the names and remember the `srm` space token. */
  method AddProtocols(ps: seq<Protocol>, schemes: seq<string>, rse: RseName, did: Did,
                      lfn2pfn: (RseName, Did, Protocol) -> string, token0: Option<Option<string>>)
    returns (pfns: seq<string>, token: Option<Option<string>>)
    ensures pfns == Pfns(ps, schemes, rse, did, lfn2pfn)
    ensures token == if LastSrm(ps, schemes).Some? then LastSrm(ps, schemes) else token0
  {
    pfns, token := [], token0;
    var i := 0;
    while i < |ps|
      invariant 0 <= i <= |ps|
      invariant pfns == Pfns(ps[..i], schemes, rse, did, lfn2pfn)
      invariant token == if LastSrm(ps[..i], schemes).Some? then LastSrm(ps[..i], schemes) else token0
    {
      var p := ps[i];
      assert ps[..i + 1][..i] == ps[..i];
      if Selected(p, schemes) {
        pfns := pfns + [lfn2pfn(rse, did, p)];
        if p.scheme == "srm" {
          token := Some(p.spaceToken);
        }
      }
      i := i + 1;
    }
    assert ps[..i] == ps;
  }

  function RsesOf(keys: set<ReplicaKey>, f: Did): set<RseName>
  {
    set k | k in keys && k.did == f :: k.rse
  }

  /** The listing entry of `f` describes the rows of `f` among `keys`. */
  predicate EntryDescribes(e: FileEntry, f: Did, rows: map<ReplicaKey, Replica>, keys: set<ReplicaKey>,
                           protocols: RseName -> seq<Protocol>, schemes: seq<string>,
                           lfn2pfn: (RseName, Did, Protocol) -> string)
    requires keys <= rows.Keys
  {
    && e.rses.Keys == RsesOf(keys, f)
    && (forall r :: r in e.rses ==> e.rses[r] == Pfns(protocols(r), schemes, r, f, lfn2pfn))
    && (exists k :: k in keys && k.did == f &&
          e.bytes == rows[k].bytes && e.md5 == rows[k].md5 && e.adler32 == rows[k].adler32)
    && (e.spaceToken.Some? <==> exists r :: r in RsesOf(keys, f) && LastSrm(protocols(r), schemes).Some?)
    && (e.spaceToken.Some? ==> exists r :: r in RsesOf(keys, f) && e.spaceToken == LastSrm(protocols(r), schemes))
  }

  /** One entry per file with a row among `keys`, each describing those rows. */
  predicate Describes(listing: map<Did, FileEntry>, rows: map<ReplicaKey, Replica>, keys: set<ReplicaKey>,
                      protocols: RseName -> seq<Protocol>, schemes: seq<string>,
                      lfn2pfn: (RseName, Did, Protocol) -> string)
    requires keys <= rows.Keys
  {
    && listing.Keys == DidsOf(keys)
    && forall f :: f in listing ==> EntryDescribes(listing[f], f, rows, keys, protocols, schemes, lfn2pfn)
  }

  /** The first row of a file creates its entry. */
  lemma FreshEntry(rows: map<ReplicaKey, Replica>, done: set<ReplicaKey>, k: ReplicaKey, e: FileEntry,
                   protocols: RseName -> seq<Protocol>, schemes: seq<string>,
                   lfn2pfn: (RseName, Did, Protocol) -> string)
    requires done <= rows.Keys && k in rows && k.did !in DidsOf(done)
    requires e.bytes == rows[k].bytes && e.md5 == rows[k].md5 && e.adler32 == rows[k].adler32
    requires e.rses == map[k.rse := Pfns(protocols(k.rse), schemes, k.rse, k.did, lfn2pfn)]
    requires e.spaceToken == LastSrm(protocols(k.rse), schemes)
    ensures EntryDescribes(e, k.did, rows, done + {k}, protocols, schemes, lfn2pfn)
  {
    assert RsesOf(done + {k}, k.did) == {k.rse};
    assert k in done + {k};
  }

  /** A further row of a file adds or resets its RSE's names and may replace the space token. */
  lemma RefreshedEntry(rows: map<ReplicaKey, Replica>, done: set<ReplicaKey>, k: ReplicaKey, prev: FileEntry, e: FileEntry,
                       protocols: RseName -> seq<Protocol>, schemes: seq<string>,
                       lfn2pfn: (RseName, Did, Protocol) -> string)
    requires done <= rows.Keys && k in rows
    requires EntryDescribes(prev, k.did, rows, done, protocols, schemes, lfn2pfn)
    requires e.bytes == prev.bytes && e.md5 == prev.md5 && e.adler32 == prev.adler32
    requires e.rses == prev.rses[k.rse := Pfns(protocols(k.rse), schemes, k.rse, k.did, lfn2pfn)]
    requires e.spaceToken == if LastSrm(protocols(k.rse), schemes).Some? then LastSrm(protocols(k.rse), schemes) else prev.spaceToken
    ensures EntryDescribes(e, k.did, rows, done + {k}, protocols, schemes, lfn2pfn)
  {
    var f := k.did;
    RsesOfAdd(done, k, f);
    RefreshedRses(prev.rses, e.rses, k.rse, RsesOf(done, f), f, protocols, schemes, lfn2pfn);
    RefreshedAttributes(rows, done, k, prev, e);
    RefreshedToken(RsesOf(done, f), k.rse, prev.spaceToken, e.spaceToken, protocols, schemes);
  }

  lemma RefreshedRses(prev: map<RseName, seq<string>>, now: map<RseName, seq<string>>, r: RseName, rses: set<RseName>, f: Did,
                      protocols: RseName -> seq<Protocol>, schemes: seq<string>,
                      lfn2pfn: (RseName, Did, Protocol) -> string)
    requires prev.Keys == rses
    requires forall q :: q in prev ==> prev[q] == Pfns(protocols(q), schemes, q, f, lfn2pfn)
    requires now == prev[r := Pfns(protocols(r), schemes, r, f, lfn2pfn)]
    ensures now.Keys == rses + {r}
    ensures forall q :: q in now ==> now[q] == Pfns(protocols(q), schemes, q, f, lfn2pfn)
  {
  }

  lemma RefreshedAttributes(rows: map<ReplicaKey, Replica>, done: set<ReplicaKey>, k: ReplicaKey, prev: FileEntry, e: FileEntry)
    requires done <= rows.Keys && k in rows
    requires exists j :: j in done && j.did == k.did &&
               prev.bytes == rows[j].bytes && prev.md5 == rows[j].md5 && prev.adler32 == rows[j].adler32
    requires e.bytes == prev.bytes && e.md5 == prev.md5 && e.adler32 == prev.adler32
    ensures exists j :: j in done + {k} && j.did == k.did &&
              e.bytes == rows[j].bytes && e.md5 == rows[j].md5 && e.adler32 == rows[j].adler32
  {
    var j :| j in done && j.did == k.did &&
             prev.bytes == rows[j].bytes && prev.md5 == rows[j].md5 && prev.adler32 == rows[j].adler32;
    assert j in done + {k};
  }

  lemma RefreshedToken(rses: set<RseName>, r: RseName, prev: Option<Option<string>>, token: Option<Option<string>>,
                       protocols: RseName -> seq<Protocol>, schemes: seq<string>)
    requires prev.Some? <==> exists q :: q in rses && LastSrm(protocols(q), schemes).Some?
    requires prev.Some? ==> exists q :: q in rses && prev == LastSrm(protocols(q), schemes)
    requires token == if LastSrm(protocols(r), schemes).Some? then LastSrm(protocols(r), schemes) else prev
    ensures token.Some? <==> exists q :: q in rses + {r} && LastSrm(protocols(q), schemes).Some?
    ensures token.Some? ==> exists q :: q in rses + {r} && token == LastSrm(protocols(q), schemes)
  {
    if LastSrm(protocols(r), schemes).None? && prev.Some? {
      var q :| q in rses && prev == LastSrm(protocols(q), schemes);
      assert q in rses + {r};
    }
    assert r in rses + {r};
  }

  /** Storing the refreshed entry of one row's file extends the description to that row. */
  lemma GroupStep(listing: map<Did, FileEntry>, rows: map<ReplicaKey, Replica>, done: set<ReplicaKey>, k: ReplicaKey, e: FileEntry,
                  protocols: RseName -> seq<Protocol>, schemes: seq<string>,
                  lfn2pfn: (RseName, Did, Protocol) -> string)
    requires done <= rows.Keys && k in rows
    requires Describes(listing, rows, done, protocols, schemes, lfn2pfn)
    requires EntryDescribes(e, k.did, rows, done + {k}, protocols, schemes, lfn2pfn)
    ensures Describes(listing[k.did := e], rows, done + {k}, protocols, schemes, lfn2pfn)
  {
    var after := listing[k.did := e];
    forall g | g in after
      ensures EntryDescribes(after[g], g, rows, done + {k}, protocols, schemes, lfn2pfn)
    {
      if g != k.did {
        OtherEntry(rows, done, k, g, listing[g], protocols, schemes, lfn2pfn);
      }
    }
    DidsOfAdd(done, k);
  }

  lemma RsesOfAdd(done: set<ReplicaKey>, k: ReplicaKey, f: Did)
    ensures RsesOf(done + {k}, f) == if f == k.did then RsesOf(done, f) + {k.rse} else RsesOf(done, f)
  {
  }

  lemma DidsOfAdd(done: set<ReplicaKey>, k: ReplicaKey)
    ensures DidsOf(done + {k}) == DidsOf(done) + {k.did}
  {
  }

  /** Processing one row of a file: create or refresh its entry, then run the protocol loop. */
  method NextEntry(rows: map<ReplicaKey, Replica>, ghost done: set<ReplicaKey>, k: ReplicaKey, prev: Option<FileEntry>,
                   protocols: RseName -> seq<Protocol>, schemes: seq<string>,
                   lfn2pfn: (RseName, Did, Protocol) -> string)
    returns (e: FileEntry)
    requires done <= rows.Keys && k in rows
    requires prev.Some? <==> k.did in DidsOf(done)
    requires prev.Some? ==> EntryDescribes(prev.value, k.did, rows, done, protocols, schemes, lfn2pfn)
    ensures EntryDescribes(e, k.did, rows, done + {k}, protocols, schemes, lfn2pfn)
  {
    var entry := if prev.Some? then prev.value.(rses := prev.value.rses[k.rse := []])
                 else FileEntry(rows[k].bytes, rows[k].md5, rows[k].adler32, map[k.rse := []], None);
    var pfns, token := AddProtocols(protocols(k.rse), schemes, k.rse, k.did, lfn2pfn, entry.spaceToken);
    e := entry.(rses := entry.rses[k.rse := pfns], spaceToken := token);
    if prev.Some? {
      assert e.rses == prev.value.rses[k.rse := pfns];
      RefreshedEntry(rows, done, k, prev.value, e, protocols, schemes, lfn2pfn);
    } else {
      assert e.rses == map[k.rse := pfns];
      FreshEntry(rows, done, k, e, protocols, schemes, lfn2pfn);
    }
  }

  lemma OtherEntry(rows: map<ReplicaKey, Replica>, done: set<ReplicaKey>, k: ReplicaKey, f: Did, e: FileEntry,
                   protocols: RseName -> seq<Protocol>, schemes: seq<string>,
                   lfn2pfn: (RseName, Did, Protocol) -> string)
    requires done <= rows.Keys && k in rows && f != k.did
    requires EntryDescribes(e, f, rows, done, protocols, schemes, lfn2pfn)
    ensures EntryDescribes(e, f, rows, done + {k}, protocols, schemes, lfn2pfn)
  {
    RsesOfAdd(done, k, f);
    var j :| j in done && j.did == f && e.bytes == rows[j].bytes && e.md5 == rows[j].md5 && e.adler32 == rows[j].adler32;
    assert j in done + {k};
  }

  /**
    The grouping loop over the replica rows, in whatever order the database
    returns them: the first row of a file fixes its size and checksums, each
    row (re)sets the name list of its RSE, and an `srm` protocol sets the
    space token.
   */
  method GroupReplicas(rows: map<ReplicaKey, Replica>, hits: set<ReplicaKey>, protocols: RseName -> seq<Protocol>,
                       schemes: seq<string>, lfn2pfn: (RseName, Did, Protocol) -> string)
    returns (listing: map<Did, FileEntry>)
    requires hits <= rows.Keys
    ensures Describes(listing, rows, hits, protocols, schemes, lfn2pfn)
  {
    listing := map[];
    var todo := hits;
    while todo != {}
      invariant todo <= hits
      invariant Describes(listing, rows, hits - todo, protocols, schemes, lfn2pfn)
      decreases todo
    {
      var k :| k in todo;
      ghost var done := hits - todo;
      var f := k.did;
      var e := NextEntry(rows, done, k, if f in listing then Some(listing[f]) else None, protocols, schemes, lfn2pfn);
      GroupStep(listing, rows, done, k, e, protocols, schemes, lfn2pfn);
      listing := listing[f := e];
      todo := todo - {k};
      assert hits - todo == done + {k};
    }
    assert hits - todo == hits;
  }
}
