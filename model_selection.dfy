/** Choosing the HuggingChat model at start-up (engines.py:34-62): the
    catalog is lower-cased, the configured `model` string picks a preferred
    catalog index by substring match, and `switch_llm` is tried on that
    index and then on the remaining indices until one call succeeds.

    The service is an oracle: `accepts(k, i)` says whether the `k`-th
    `switch_llm` call of the run, made on catalog index `i`, succeeds. */
module ModelSelection {
  import opened Wrappers
  import opened Text

  /** `available_models[0]` on an empty catalog raises `IndexError`. */
  datatype InitError = NoModels

  /** The `RuntimeError("unable to select any model!")` the loop means to raise. */
  datatype SelectError = NoUsableModel

  /** The indices tried, in order, and the model the chatbot ends up on
      (`None`: no call succeeded, so the chatbot keeps its own default). */
  datatype Selection = Selection(tried: seq<nat>, active: Option<nat>)

  /** `available_models`: every catalog name, lower-cased. */
  function LowerCatalog(models: seq<string>): (r: seq<string>)
    ensures |r| == |models|
    ensures forall i :: 0 <= i < |models| ==> r[i] == Lower(models[i])
  {
    seq(|models|, i requires 0 <= i < |models| => Lower(models[i]))
  }

  /** `config.get("model", available_models[0])`: the default is evaluated
      even when `model` is configured, so an empty catalog fails either way. */
  function DefaultEngine(model: Option<string>, catalog: seq<string>): (r: Result<string, InitError>)
    ensures r.Failure? <==> catalog == []
    ensures catalog != [] && model.Some? ==> r == Success(model.value)
    ensures catalog != [] && model.None? ==> r == Success(catalog[0])
  {
    if catalog == [] then Failure(NoModels) else Success(model.GetOr(catalog[0]))
  }

  /** The first catalog index whose name contains the engine string. */
  function FirstMatch(catalog: seq<string>, engine: string): (r: Option<nat>)
    ensures r.Some? ==> r.value < |catalog| && Contains(catalog[r.value], engine)
    ensures r.Some? ==> forall j :: 0 <= j < r.value ==> !Contains(catalog[j], engine)
    ensures r.None? ==> forall j :: 0 <= j < |catalog| ==> !Contains(catalog[j], engine)
  {
    if catalog == [] then None
    else if Contains(catalog[0], engine) then Some(0)
    else match FirstMatch(catalog[1..], engine)
      case None => None
      case Some(k) => Some(k + 1)
  }

  /** `list(range(n))`. */
  function Indices(n: nat): (r: seq<nat>)
    ensures |r| == n
    ensures forall i :: 0 <= i < n ==> r[i] == i
  {
    seq(n, i requires 0 <= i => i as nat)
  }

  /** `models_ids` after the matching loop: the matched index deleted. */
  function InitialIds(n: nat, first: Option<nat>): seq<nat>
    requires first.Some? ==> first.value < n
  {
    if first.Some? then Indices(n)[..first.value] + Indices(n)[first.value + 1..] else Indices(n)
  }

  /** The indices `switch_llm` is called on, in order, as the loop is
      written: the preferred one, then those popped from `models_ids`
      while the list is still non-empty before the pop. */
  function Order(catalog: seq<string>, engine: string): seq<nat> {
    var first := FirstMatch(catalog, engine);
    var ids := InitialIds(|catalog|, first);
    ([first.GetOr(0)] + ids)[..|ids|]
  }

  /** Walking a candidate order from position `k`: stop at the first call
      that succeeds, otherwise go on to the next candidate. */
  function SelectFrom(order: seq<nat>, accepts: (nat, nat) -> bool, k: nat): Selection
    requires k <= |order|
    decreases |order| - k
  {
    if k == |order| then Selection([], None)
    else if accepts(k, order[k]) then Selection([order[k]], Some(order[k]))
    else
      var rest := SelectFrom(order, accepts, k + 1);
      Selection([order[k]] + rest.tried, rest.active)
  }

  /** The walk tries a run of consecutive candidates from position `k`,
      every call but the last one failing; it selects the last one tried
      exactly when that call succeeded, and selects nothing only after a
      failed call on every remaining candidate. */
  lemma {:induction false} SelectFromSpec(order: seq<nat>, accepts: (nat, nat) -> bool, k: nat)
    requires k <= |order|
    ensures |SelectFrom(order, accepts, k).tried| <= |order| - k
    ensures SelectFrom(order, accepts, k).tried == order[k..k + |SelectFrom(order, accepts, k).tried|]
    ensures forall j :: 0 <= j < |SelectFrom(order, accepts, k).tried| - 1 ==>
      !accepts(k + j, SelectFrom(order, accepts, k).tried[j])
    ensures SelectFrom(order, accepts, k).active.Some? <==>
      SelectFrom(order, accepts, k).tried != [] &&
      accepts(k + |SelectFrom(order, accepts, k).tried| - 1,
        SelectFrom(order, accepts, k).tried[|SelectFrom(order, accepts, k).tried| - 1])
    ensures SelectFrom(order, accepts, k).active.Some? ==>
      SelectFrom(order, accepts, k).active.value ==
        SelectFrom(order, accepts, k).tried[|SelectFrom(order, accepts, k).tried| - 1]
    ensures SelectFrom(order, accepts, k).active.None? ==>
      |SelectFrom(order, accepts, k).tried| == |order| - k
    decreases |order| - k
  {
    if k < |order| && !accepts(k, order[k]) {
      SelectFromSpec(order, accepts, k + 1);
      var rest := SelectFrom(order, accepts, k + 1);
      var s := SelectFrom(order, accepts, k);
      assert s.tried == [order[k]] + rest.tried;
      forall j | 0 <= j < |s.tried| - 1 ensures !accepts(k + j, s.tried[j]) {
        if j > 0 {
          assert s.tried[j] == rest.tried[j - 1];
        }
      }
    }
  }

  /** What `_select_model` does on a catalog and an engine string. */
  function Select(catalog: seq<string>, engine: string, accepts: (nat, nat) -> bool): Selection {
    SelectFrom(Order(catalog, engine), accepts, 0)
  }

  /** The matching loop of `_select_model`: the first index whose name
      contains the engine string, deleted from `list(range(n))`. */
  method PreferredCandidate(catalog: seq<string>, engine: string) returns (modelId: nat, modelsIds: seq<nat>)
    ensures var first := FirstMatch(catalog, engine);
      modelId == first.GetOr(0) && modelsIds == InitialIds(|catalog|, first)
  {
    modelId := 0;
    modelsIds := Indices(|catalog|);
    for i := 0 to |catalog|
      invariant modelId == 0 && modelsIds == Indices(|catalog|)
      invariant forall j :: 0 <= j < i ==> !Contains(catalog[j], engine)
    {
      if Contains(catalog[i], engine) {
        modelId := i;
        modelsIds := modelsIds[..i] + modelsIds[i + 1..];
        break;
      }
    }
  }

  /** `_select_model`: after the matching loop, the try/except loop that
      pops the next candidate after each failed `switch_llm`. */
  method SelectModel(catalog: seq<string>, engine: string, accepts: (nat, nat) -> bool)
    returns (active: Option<nat>, tried: seq<nat>)
    ensures Selection(tried, active) == Select(catalog, engine, accepts)
  {
    var modelId, modelsIds := PreferredCandidate(catalog, engine);
    ghost var ids0 := modelsIds;
    ghost var queue := [modelId] + modelsIds;
    ghost var order := Order(catalog, engine);
    assert order == queue[..|ids0|];
    ghost var selection := SelectFrom(order, accepts, 0);
    assert selection == After([], selection);
    active := None;
    tried := [];
    while modelsIds != []
      invariant |tried| <= |ids0| && modelsIds == ids0[|tried|..]
      invariant modelId == queue[|tried|]
      invariant selection == After(tried, SelectFrom(order, accepts, |tried|))
      invariant active.None?
      decreases |modelsIds|
    {
      assert modelId == order[|tried|];
      if accepts(|tried|, modelId) {
        tried := tried + [modelId];
        active := Some(modelId);
        break;
      }
      ghost var next := SelectFrom(order, accepts, |tried| + 1);
      SelectFromStep(order, accepts, |tried|);
      AfterAfter(tried, [modelId], next);
      tried := tried + [modelId];
      if modelsIds == [] {
        // `raise RuntimeError(...)`: the loop guard keeps this branch dead
        assert false;
      }
      modelId := modelsIds[0];
      modelsIds := modelsIds[1..];
    }
  }

  /** A selection preceded by failed attempts on `tried`. */
  function After(tried: seq<nat>, s: Selection): Selection {
    Selection(tried + s.tried, s.active)
  }

  lemma AfterAfter(a: seq<nat>, b: seq<nat>, s: Selection)
    ensures After(a, After(b, s)) == After(a + b, s)
  {
    assert a + (b + s.tried) == (a + b) + s.tried;
  }

  /** One failed attempt, then the walk goes on from the next position. */
  lemma SelectFromStep(order: seq<nat>, accepts: (nat, nat) -> bool, k: nat)
    requires k < |order| && !accepts(k, order[k])
    ensures SelectFrom(order, accepts, k) == After([order[k]], SelectFrom(order, accepts, k + 1))
  {
  }

  /** `models_ids` after the matching loop is ascending and holds every
      index except the matched one. */
  lemma InitialIdsSpec(n: nat, first: Option<nat>)
    requires first.Some? ==> first.value < n
    ensures var ids := InitialIds(n, first);
      && |ids| == (if first.Some? then n - 1 else n)
      && (forall i, j :: 0 <= i < j < |ids| ==> ids[i] < ids[j])
      && (forall i :: 0 <= i < |ids| ==> ids[i] < n && (first.Some? ==> ids[i] != first.value))
      && (forall x :: 0 <= x < n && (first.None? || x != first.value) ==> x in ids)
  {
    var ids := InitialIds(n, first);
    if first.Some? {
      var m := first.value;
      assert forall i :: 0 <= i < m ==> ids[i] == i;
      assert forall i :: m <= i < |ids| ==> ids[i] == i + 1;
      forall x | 0 <= x < n && x != m ensures x in ids {
        if x < m { assert ids[x] == x; } else { assert ids[x - 1] == x; }
      }
    } else {
      forall x | 0 <= x < n ensures x in ids {
        assert ids[x] == x;
      }
    }
  }

  /** The order starts at the preferred index (the first match, else 0)
      and then follows `models_ids` from its front. */
  lemma OrderSpec(catalog: seq<string>, engine: string)
    ensures var first := FirstMatch(catalog, engine);
      var ids := InitialIds(|catalog|, first);
      var order := Order(catalog, engine);
      && |order| == |ids|
      && (|order| > 0 ==> order[0] == first.GetOr(0))
      && (forall j :: 1 <= j < |order| ==> order[j] == ids[j - 1])
  {
  }

  /** After the preferred index, candidates come in ascending catalog
      order, each the smallest index still waiting in `models_ids`. */
  lemma AscendingAfterPreferred(catalog: seq<string>, engine: string)
    ensures var ids := InitialIds(|catalog|, FirstMatch(catalog, engine));
      var order := Order(catalog, engine);
      && (forall i, j :: 1 <= i < j < |order| ==> order[i] < order[j])
      && (forall j, t :: 1 <= j < |order| && j - 1 <= t < |ids| ==> order[j] <= ids[t])
  {
    var first := FirstMatch(catalog, engine);
    InitialIdsSpec(|catalog|, first);
    OrderSpec(catalog, engine);
  }

  /** No name matches: index 0 is both the preferred index and the first
      one popped, so it is tried twice, and the order is 0, 0, 1, ..., n-2. */
  lemma NoMatchRetriesZero(catalog: seq<string>, engine: string)
    requires FirstMatch(catalog, engine).None? && |catalog| >= 1
    ensures Order(catalog, engine) == [0] + Indices(|catalog| - 1)
    ensures |catalog| >= 2 ==> Order(catalog, engine)[0] == 0 && Order(catalog, engine)[1] == 0
  {
    var order := Order(catalog, engine);
    OrderSpec(catalog, engine);
    assert order == [0] + Indices(|catalog| - 1);
  }

  /** The last index left in `models_ids` is missing from the order;
      every other catalog index is in it. */
  lemma LastCandidateNotInOrder(catalog: seq<string>, engine: string)
    requires |catalog| >= 2
    ensures var ids := InitialIds(|catalog|, FirstMatch(catalog, engine));
      && ids != []
      && ids[|ids| - 1] !in Order(catalog, engine)
      && forall x :: 0 <= x < |catalog| && x != ids[|ids| - 1] ==> x in Order(catalog, engine)
  {
    var first := FirstMatch(catalog, engine);
    var ids := InitialIds(|catalog|, first);
    var order := Order(catalog, engine);
    InitialIdsSpec(|catalog|, first);
    OrderSpec(catalog, engine);
    var last := ids[|ids| - 1];
    forall j | 0 <= j < |order| ensures order[j] != last {
      if j >= 1 {
        assert order[j] == ids[j - 1];
      }
    }
    forall x | 0 <= x < |catalog| && x != last ensures x in order {
      if first.Some? && x == first.value {
        assert order[0] == x;
      } else {
        assert x in ids;
        var t :| 0 <= t < |ids| && ids[t] == x;
        assert t < |ids| - 1;
        assert order[t + 1] == x;
      }
    }
  }

  /** Only candidates of the order are tried. */
  lemma TriedAreInOrder(order: seq<nat>, accepts: (nat, nat) -> bool, x: nat)
    requires x in SelectFrom(order, accepts, 0).tried
    ensures x in order
  {
    var s := SelectFrom(order, accepts, 0);
    SelectFromSpec(order, accepts, 0);
    var j :| 0 <= j < |s.tried| && s.tried[j] == x;
    assert order[j] == x;
  }

  /** The last index left in `models_ids` is never tried: the loop stops
      as soon as the pop empties the list. Every other index is in the
      order. */
  lemma LastCandidateNeverTried(catalog: seq<string>, engine: string, accepts: (nat, nat) -> bool)
    requires |catalog| >= 2
    ensures var ids := InitialIds(|catalog|, FirstMatch(catalog, engine));
      && ids != []
      && ids[|ids| - 1] !in Order(catalog, engine)
      && ids[|ids| - 1] !in Select(catalog, engine, accepts).tried
      && forall x :: 0 <= x < |catalog| && x != ids[|ids| - 1] ==> x in Order(catalog, engine)
  {
    LastCandidateNotInOrder(catalog, engine);
    var ids := InitialIds(|catalog|, FirstMatch(catalog, engine));
    if ids[|ids| - 1] in Select(catalog, engine, accepts).tried {
      TriedAreInOrder(Order(catalog, engine), accepts, ids[|ids| - 1]);
    }
  }

  /** When every call fails the loop ends quietly: no model is selected
      and no error is raised, although one index was never tried. */
  lemma AllFailuresReturnQuietly(catalog: seq<string>, engine: string, accepts: (nat, nat) -> bool)
    requires forall k, i :: !accepts(k, i)
    ensures Select(catalog, engine, accepts) == Selection(Order(catalog, engine), None)
  {
    AllFailuresTryAll(Order(catalog, engine), accepts);
  }

  /** The same for any order. */
  lemma AllFailuresTryAll(order: seq<nat>, accepts: (nat, nat) -> bool)
    requires forall k, i :: !accepts(k, i)
    ensures SelectFrom(order, accepts, 0) == Selection(order, None)
  {
    var s := SelectFrom(order, accepts, 0);
    SelectFromSpec(order, accepts, 0);
    assert s.active.None?;
    assert s.tried == order[0..|order|] == order;
  }

  /** A single catalog entry that matches leaves `models_ids` empty, so
      `switch_llm` is never called. */
  lemma SingleMatchNoSwitch(catalog: seq<string>, engine: string, accepts: (nat, nat) -> bool)
    requires |catalog| == 1 && Contains(catalog[0], engine)
    ensures Order(catalog, engine) == []
    ensures Select(catalog, engine, accepts) == Selection([], None)
  {
    assert FirstMatch(catalog, engine) == Some(0);
  }

  /** The first successful call ends the selection on the index it was
      made on; no call is made after it. */
  lemma StopsAtFirstSuccess(catalog: seq<string>, engine: string, accepts: (nat, nat) -> bool, k: nat)
    requires k < |Order(catalog, engine)| && accepts(k, Order(catalog, engine)[k])
    ensures var s := Select(catalog, engine, accepts);
      s.active.Some? && |s.tried| <= k + 1 && s.tried == Order(catalog, engine)[..|s.tried|]
  {
    FirstSuccessEndsWalk(Order(catalog, engine), accepts, k);
  }

  /** The same for any order, walked from its start. */
  lemma FirstSuccessEndsWalk(order: seq<nat>, accepts: (nat, nat) -> bool, k: nat)
    requires k < |order| && accepts(k, order[k])
    ensures SelectFrom(order, accepts, 0).active.Some?
    ensures |SelectFrom(order, accepts, 0).tried| <= k + 1
    ensures SelectFrom(order, accepts, 0).tried == order[..|SelectFrom(order, accepts, 0).tried|]
  {
    var s := SelectFrom(order, accepts, 0);
    SelectFromSpec(order, accepts, 0);
    assert k < |s.tried| ==> s.tried[k] == order[k];
  }

  /** The engine string is not lower-cased, so one holding an upper-case
      letter matches no name of the lower-cased catalog. */
  lemma UpperCaseEngineNeverMatches(models: seq<string>, engine: string, j: nat)
    requires j < |engine| && IsUpper(engine[j])
    ensures FirstMatch(LowerCatalog(models), engine) == None
  {
    var catalog := LowerCatalog(models);
    forall i | 0 <= i < |catalog| ensures !Contains(catalog[i], engine) {
      LowerHasNoUpper(models[i]);
      UpperNotContained(catalog[i], engine, j);
    }
  }

  /** With no `model` configured the engine is the first name, which
      matches itself: selection starts at index 0 and goes on in order. */
  lemma DefaultEngineStartsAtZero(models: seq<string>)
    requires |models| >= 1
    ensures var catalog := LowerCatalog(models);
      && DefaultEngine(None, catalog) == Success(catalog[0])
      && FirstMatch(catalog, catalog[0]) == Some(0)
      && Order(catalog, catalog[0]) == Indices(|models| - 1)
  {
    var catalog := LowerCatalog(models);
    assert Contains(catalog[0], catalog[0]);
    OrderSpec(catalog, catalog[0]);
    InitialIdsSpec(|catalog|, Some(0));
    var order := Order(catalog, catalog[0]);
    var ids := InitialIds(|catalog|, Some(0));
    assert forall j :: 0 <= j < |ids| ==> ids[j] == j + 1;
    assert order == Indices(|models| - 1);
  }

  /** The only usable model being the last candidate, selection ends with
      no model although one would have worked. */
  lemma OnlyLastUsableIsMissed(catalog: seq<string>, engine: string, accepts: (nat, nat) -> bool)
    requires |catalog| >= 2
    requires var ids := InitialIds(|catalog|, FirstMatch(catalog, engine));
      forall k, i :: accepts(k, i) <==> i == ids[|ids| - 1]
    ensures Select(catalog, engine, accepts).active == None
  {
    var s := Select(catalog, engine, accepts);
    LastCandidateNeverTried(catalog, engine, accepts);
    SelectFromSpec(Order(catalog, engine), accepts, 0);
    assert s.tried != [] ==> s.tried[|s.tried| - 1] in s.tried;
  }

  /** Three names, the engine matching only the second: index 1 is tried,
      then index 0, and index 2 never. */
  lemma MatchInMiddleOfThree(a: string, b: string, c: string, engine: string)
    requires !Contains(a, engine) && Contains(b, engine)
    ensures Order([a, b, c], engine) == [1, 0]
  {
    assert FirstMatch([a, b, c], engine) == Some(1) by {
      assert [a, b, c][1..] == [b, c];
    }
    assert InitialIds(3, Some(1)) == [0, 2];
  }

  /** `llama-3` against `mixtral`, `llama-3-70b`, `yi`: when every call
      fails, `llama-3-70b` and then `mixtral` are tried, `yi` is not, and
      the selection ends with no model and no error. */
  lemma LlamaCatalogExample(accepts: (nat, nat) -> bool)
    requires forall k, i :: !accepts(k, i)
    ensures Order(["mixtral", "llama-3-70b", "yi"], "llama-3") == [1, 0]
    ensures Select(["mixtral", "llama-3-70b", "yi"], "llama-3", accepts) == Selection([1, 0], None)
  {
    var engine := "llama-3";
    forall j | 0 <= j <= |"mixtral"| ensures !(engine <= "mixtral"[j..]) {
      if j == 0 {
        assert engine[0] != "mixtral"[0];
      }
    }
    NotContains("mixtral", engine);
    assert engine <= "llama-3-70b";
    MatchInMiddleOfThree("mixtral", "llama-3-70b", "yi", engine);
    AllFailuresReturnQuietly(["mixtral", "llama-3-70b", "yi"], engine, accepts);
  }

  /** The loop as evidently meant: try the preferred index, then every
      other index once in catalog order, and raise when none works. */
  function IntendedQueue(catalog: seq<string>, engine: string): seq<nat> {
    var first := FirstMatch(catalog, engine);
    var ids := InitialIds(|catalog|, first);
    if first.Some? then [first.value] + ids else ids
  }

  /** The corrected selection: the first queued index whose call succeeds,
      or the `RuntimeError` of engines.py:60 once every queued call has
      failed. */
  function SelectIntended(catalog: seq<string>, engine: string, accepts: (nat, nat) -> bool): (r: Result<nat, SelectError>)
    ensures r.Success? ==> r.value < |catalog|
    ensures r.Success? ==>
      exists j ::
        && 0 <= j < |IntendedQueue(catalog, engine)|
        && IntendedQueue(catalog, engine)[j] == r.value && accepts(j, r.value)
        && forall i :: 0 <= i < j ==> !accepts(i, IntendedQueue(catalog, engine)[i])
  {
    var q := IntendedQueue(catalog, engine);
    var s := SelectFrom(q, accepts, 0);
    if s.active.Some? then
      IntendedQueueIsPermutation(catalog, engine);
      WalkPicksFirstSuccess(q, accepts);
      assert s.active.value in q;
      Success(s.active.value)
    else Failure(NoUsableModel)
  }

  /** A walk that selects a model selects the candidate of the first call
      that succeeded. */
  lemma {:induction false} WalkPicksFirstSuccess(order: seq<nat>, accepts: (nat, nat) -> bool)
    requires SelectFrom(order, accepts, 0).active.Some?
    ensures exists j ::
      && 0 <= j < |order|
      && order[j] == SelectFrom(order, accepts, 0).active.value && accepts(j, order[j])
      && forall i :: 0 <= i < j ==> !accepts(i, order[i])
  {
    var s := SelectFrom(order, accepts, 0);
    assert s.tried != [] && |s.tried| <= |order| && s.tried == order[..|s.tried|]
      && s.active.value == s.tried[|s.tried| - 1] && accepts(|s.tried| - 1, s.tried[|s.tried| - 1])
      && forall i :: 0 <= i < |s.tried| - 1 ==> !accepts(i, s.tried[i])
    by {
      SelectFromSpec(order, accepts, 0);
    }
    var j := |s.tried| - 1;
    assert order[j] == s.tried[j] == s.active.value && accepts(j, order[j]);
    forall i | 0 <= i < j ensures !accepts(i, order[i]) {
      assert order[i] == s.tried[i];
    }
  }

  /** The intended queue holds every catalog index exactly once. */
  lemma IntendedQueueIsPermutation(catalog: seq<string>, engine: string)
    ensures var q := IntendedQueue(catalog, engine);
      && |q| == |catalog|
      && (forall i, j :: 0 <= i < j < |q| ==> q[i] != q[j])
      && (forall x :: 0 <= x < |catalog| <==> x in q)
  {
    var first := FirstMatch(catalog, engine);
    InitialIdsSpec(|catalog|, first);
  }

  /** The intended selection fails exactly when a call failed on every
      index of the queue. */
  lemma IntendedFailsOnlyAfterAll(catalog: seq<string>, engine: string, accepts: (nat, nat) -> bool)
    ensures var q := IntendedQueue(catalog, engine);
      SelectIntended(catalog, engine, accepts).Failure? <==>
        (forall j :: 0 <= j < |q| ==> !accepts(j, q[j]))
  {
    var q := IntendedQueue(catalog, engine);
    var s := SelectFrom(q, accepts, 0);
    SelectFromSpec(q, accepts, 0);
    assert s.tried == q[..|s.tried|];
    if s.active.None? {
      assert s.tried == q;
    } else {
      assert q[|s.tried| - 1] == s.tried[|s.tried| - 1];
    }
  }

  /** A model that always accepts is never missed by the intended selection. */
  lemma IntendedFindsUsableModel(catalog: seq<string>, engine: string, accepts: (nat, nat) -> bool, w: nat)
    requires w < |catalog| && forall k :: accepts(k, w)
    ensures SelectIntended(catalog, engine, accepts).Success?
  {
    var q := IntendedQueue(catalog, engine);
    IntendedQueueIsPermutation(catalog, engine);
    IntendedFailsOnlyAfterAll(catalog, engine, accepts);
    assert w in q;
    var p :| 0 <= p < |q| && q[p] == w;
    assert accepts(p, q[p]);
  }
}
