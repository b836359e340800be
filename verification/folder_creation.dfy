/**
  The create-if-absent loop of the `file-open` handler: for each folder path
  in order, ask the vault adapter whether it exists, and create the folder
  only when it does not.
 */
module FolderCreation {

  /** The paths the vault adapter reports as existing. `exists(path)` is
      membership and `createFolder(path)` adds `path`. */
  type Vault = set<string>

  function Elems(paths: seq<string>): set<string> {
    set p | p in paths
  }

  lemma ElemsCons(x: string, xs: seq<string>)
    ensures Elems([x] + xs) == {x} + Elems(xs)
  {
    assert forall y :: y in [x] + xs <==> y == x || y in xs;
  }

  lemma ElemsSnoc(xs: seq<string>, x: string)
    ensures Elems(xs + [x]) == Elems(xs) + {x}
  {
    assert forall y :: y in xs + [x] <==> y in xs || y == x;
  }

  lemma ElemsEmpty(xs: seq<string>)
    ensures Elems(xs) == {} ==> xs == []
  {
    if xs != [] {
      assert xs[0] in Elems(xs);
    }
  }

  predicate Distinct(xs: seq<string>) {
    forall j, k :: 0 <= j < k < |xs| ==> xs[j] != xs[k]
  }

  /** The vault after the loop, and the folders it created, in order. */
  datatype Effect = Effect(vault: Vault, created: seq<string>)

  /** The loop as a recursive definition over the paths: one existence check
      per path, and a creation exactly when the check says absent. */
  function Run(vault: Vault, paths: seq<string>): Effect
    decreases |paths|
  {
    if paths == [] then Effect(vault, [])
    else if paths[0] in vault then Run(vault, paths[1..])
    else
      var rest := Run(vault + {paths[0]}, paths[1..]);
      Effect(rest.vault, [paths[0]] + rest.created)
  }

  /** After the loop every extracted path is present, and nothing else was
      added to or removed from the vault. */
  lemma {:induction false} RunVault(vault: Vault, paths: seq<string>)
    ensures Run(vault, paths).vault == vault + Elems(paths)
    decreases |paths|
  {
    if paths != [] {
      assert paths == [paths[0]] + paths[1..];
      ElemsCons(paths[0], paths[1..]);
      if paths[0] in vault {
        RunVault(vault, paths[1..]);
      } else {
        RunVault(vault + {paths[0]}, paths[1..]);
      }
    }
  }

  /** The folders created are exactly the extracted paths that did not exist
      before, each created once: an existing folder is never touched. */
  lemma {:induction false} RunCreated(vault: Vault, paths: seq<string>)
    ensures Elems(Run(vault, paths).created) == Elems(paths) - vault
    ensures Distinct(Run(vault, paths).created)
    decreases |paths|
  {
    if paths != [] {
      assert paths == [paths[0]] + paths[1..];
      ElemsCons(paths[0], paths[1..]);
      if paths[0] in vault {
        RunCreated(vault, paths[1..]);
      } else {
        var rest := Run(vault + {paths[0]}, paths[1..]);
        RunCreated(vault + {paths[0]}, paths[1..]);
        ElemsCons(paths[0], rest.created);
      }
    }
  }

  /** What remains of the recursive definition after the loop has handled
      the first `i` paths, leaving the vault `v` and the creations `created`. */
  predicate RunRemains(vault: Vault, paths: seq<string>, i: nat, v: Vault, created: seq<string>)
    requires i <= |paths|
  {
    Run(vault, paths) == Effect(Run(v, paths[i..]).vault, created + Run(v, paths[i..]).created)
  }

  /** One iteration of the loop follows one unfolding of the definition. */
  lemma RunStep(vault: Vault, paths: seq<string>, i: nat, v: Vault, created: seq<string>)
    requires i < |paths| && RunRemains(vault, paths, i, v, created)
    ensures paths[i] in v ==> RunRemains(vault, paths, i + 1, v, created)
    ensures paths[i] !in v ==> RunRemains(vault, paths, i + 1, v + {paths[i]}, created + [paths[i]])
  {
    assert paths[i..][1..] == paths[i + 1..];
    if paths[i] !in v {
      var rest := Run(v + {paths[i]}, paths[i + 1..]);
      assert created + ([paths[i]] + rest.created) == created + [paths[i]] + rest.created;
    }
  }

  /** A call the handler makes on the vault. */
  datatype Call = ExistsCall(path: string, result: bool) | CreateFolderCall(path: string)

  /** The paths asked about with `exists`, in order. */
  function Queries(trace: seq<Call>): seq<string> {
    if trace == [] then []
    else
      var last := trace[|trace| - 1];
      Queries(trace[..|trace| - 1]) + (if last.ExistsCall? then [last.path] else [])
  }

  /** The paths passed to `createFolder`, in order. */
  function Creations(trace: seq<Call>): seq<string> {
    if trace == [] then []
    else
      var last := trace[|trace| - 1];
      Creations(trace[..|trace| - 1]) + (if last.CreateFolderCall? then [last.path] else [])
  }

  /** Check-then-act: `createFolder(p)` comes right after `exists(p)`
      answered false, and every such answer is followed by that creation. */
  predicate CheckThenAct(trace: seq<Call>) {
    forall j :: 0 <= j < |trace| ==> CheckedAt(trace, j)
  }

  /** Check-then-act at the `j`-th call of the trace. */
  predicate CheckedAt(trace: seq<Call>, j: nat) {
    && j < |trace|
    && (trace[j].CreateFolderCall? ==> 0 < j && trace[j - 1] == ExistsCall(trace[j].path, false))
    && (trace[j].ExistsCall? && !trace[j].result ==>
          j + 1 < |trace| && trace[j + 1] == CreateFolderCall(trace[j].path))
  }

  /** Every `exists` answer is the truth about the vault at that moment: the
      initial paths plus the folders created earlier in the trace. */
  predicate Truthful(vault: Vault, trace: seq<Call>) {
    forall j :: 0 <= j < |trace| && trace[j].ExistsCall? ==>
      trace[j].result == (trace[j].path in vault + Elems(Creations(trace[..j])))
  }

  lemma AppendCall(trace: seq<Call>, c: Call)
    ensures Queries(trace + [c]) == Queries(trace) + (if c.ExistsCall? then [c.path] else [])
    ensures Creations(trace + [c]) == Creations(trace) + (if c.CreateFolderCall? then [c.path] else [])
  {
    assert (trace + [c])[..|trace|] == trace;
  }

  /** Appending a truthful answer, or a creation, keeps the trace truthful. */
  lemma AppendTruthful(vault: Vault, trace: seq<Call>, c: Call)
    requires Truthful(vault, trace)
    requires c.ExistsCall? ==> c.result == (c.path in vault + Elems(Creations(trace)))
    ensures Truthful(vault, trace + [c])
  {
    var t := trace + [c];
    forall j | 0 <= j < |t| && t[j].ExistsCall?
      ensures t[j].result == (t[j].path in vault + Elems(Creations(t[..j])))
    {
      if j < |trace| {
        assert t[..j] == trace[..j];
      } else {
        assert t[..j] == trace;
      }
    }
  }

  /** A positive check alone, or a negative check followed by the creation
      of the same path, keeps the trace check-then-act. */
  lemma AppendCheckThenAct(trace: seq<Call>, step: seq<Call>, p: string)
    requires CheckThenAct(trace)
    requires step == [ExistsCall(p, true)] || step == [ExistsCall(p, false), CreateFolderCall(p)]
    ensures CheckThenAct(trace + step)
  {
    var t := trace + step;
    var n := |trace|;
    forall j | 0 <= j < |t|
      ensures CheckedAt(t, j)
    {
      if j < n {
        assert CheckedAt(trace, j);
        assert t[j] == trace[j];
        if 0 < j {
          assert t[j - 1] == trace[j - 1];
        }
        if j + 1 < n {
          assert t[j + 1] == trace[j + 1];
        }
      } else if step == [ExistsCall(p, true)] {
        assert t[j] == ExistsCall(p, true);
      } else if j == n {
        assert t[j] == ExistsCall(p, false);
        assert t[j + 1] == CreateFolderCall(p);
      } else {
        assert |step| == 2 && j == n + 1;
        assert t[j] == CreateFolderCall(p);
        assert t[j - 1] == ExistsCall(p, false);
      }
    }
  }

  /** The calls one iteration makes for path `p`: the check, and the
      creation when the check answered false. */
  function CallsFor(p: string, present: bool): seq<Call> {
    if present then [ExistsCall(p, true)] else [ExistsCall(p, false), CreateFolderCall(p)]
  }

  lemma TraceStep(vault: Vault, trace: seq<Call>, p: string, present: bool, step: seq<Call>)
    requires Truthful(vault, trace) && CheckThenAct(trace)
    requires present == (p in vault + Elems(Creations(trace)))
    requires step == CallsFor(p, present)
    ensures Queries(trace + step) == Queries(trace) + [p]
    ensures Creations(trace + step) == Creations(trace) + (if present then [] else [p])
    ensures Truthful(vault, trace + step)
    ensures CheckThenAct(trace + step)
  {
    var t1 := trace + [ExistsCall(p, present)];
    AppendCall(trace, ExistsCall(p, present));
    AppendTruthful(vault, trace, ExistsCall(p, present));
    if !present {
      AppendCall(t1, CreateFolderCall(p));
      AppendTruthful(vault, t1, CreateFolderCall(p));
      assert t1 + [CreateFolderCall(p)] == trace + step;
    }
    AppendCheckThenAct(trace, step, p);
  }

  /** The state of the loop after it has handled the first `i` paths: they
      are all present and nothing else was added; the calls so far are one
      truthful check per handled path, each negative one followed by its
      creation; and the rest of the recursive definition is still to come. */
  predicate LoopState(vault: Vault, paths: seq<string>, i: nat, v: Vault, created: seq<string>, trace: seq<Call>)
    requires i <= |paths|
  {
    && v == vault + Elems(paths[..i])
    && v == vault + Elems(created)
    && RunRemains(vault, paths, i, v, created)
    && Queries(trace) == paths[..i]
    && Creations(trace) == created
    && CheckThenAct(trace)
    && Truthful(vault, trace)
  }

  /** One iteration of the loop keeps its state. */
  lemma LoopStep(vault: Vault, paths: seq<string>, i: nat, v: Vault, created: seq<string>, trace: seq<Call>)
    requires i < |paths| && LoopState(vault, paths, i, v, created, trace)
    ensures var p := paths[i];
      var present := p in v;
      LoopState(vault, paths, i + 1,
                if present then v else v + {p},
                if present then created else created + [p],
                trace + CallsFor(p, present))
  {
    var p := paths[i];
    RunStep(vault, paths, i, v, created);
    assert paths[..i + 1] == paths[..i] + [p];
    ElemsSnoc(paths[..i], p);
    ElemsSnoc(created, p);
    TraceStep(vault, trace, p, p in v, CallsFor(p, p in v));
  }

  /** The loop of the handler, with the calls it makes on the vault. */
  method CreateMissingFolders(vault: Vault, paths: seq<string>)
    returns (v: Vault, created: seq<string>, trace: seq<Call>)
    ensures v == vault + Elems(paths)
    ensures Effect(v, created) == Run(vault, paths)
    ensures Queries(trace) == paths
    ensures Creations(trace) == created
    ensures CheckThenAct(trace)
    ensures Truthful(vault, trace)
  {
    v, created, trace := vault, [], [];
    for i := 0 to |paths|
      invariant LoopState(vault, paths, i, v, created, trace)
    {
      LoopStep(vault, paths, i, v, created, trace);
      var path := paths[i];
      var present := path in v;
      trace := trace + CallsFor(path, present);
      if !present {
        v := v + {path};
        created := created + [path];
      }
    }
    assert paths[..|paths|] == paths;
    assert paths[|paths|..] == [];
  }

  /** Running the loop a second time over the same paths creates nothing and
      leaves the vault as the first run left it. */
  lemma RunIdempotent(vault: Vault, paths: seq<string>)
    ensures Run(Run(vault, paths).vault, paths) == Effect(Run(vault, paths).vault, [])
  {
    var v1 := Run(vault, paths).vault;
    RunVault(vault, paths);
    RunVault(v1, paths);
    RunCreated(v1, paths);
    ElemsEmpty(Run(v1, paths).created);
  }

  /** A path repeated in the list is created at most once, and a path that
      already existed is never created. */
  lemma RunCreatesAtMostOnce(vault: Vault, paths: seq<string>, p: string)
    ensures multiset(Run(vault, paths).created)[p] <= 1
    ensures p in vault ==> p !in Run(vault, paths).created
  {
    var c := Run(vault, paths).created;
    RunCreated(vault, paths);
    DistinctCountsAtMostOne(c, p);
  }

  lemma {:induction false} DistinctCountsAtMostOne(xs: seq<string>, p: string)
    requires Distinct(xs)
    ensures multiset(xs)[p] <= 1
  {
    if xs != [] {
      assert xs == [xs[0]] + xs[1..];
      DistinctCountsAtMostOne(xs[1..], p);
      if xs[0] == p {
        assert p !in xs[1..];
      }
    }
  }
}
