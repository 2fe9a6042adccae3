/** The directory loop both batch scripts share: walk the listing in order, process the entries
    a test picks, and stop at the first item whose exception escapes (nothing catches it). */
module BatchLoop {

  /** The entries the test picks, in listing order. */
  function Filter(names: seq<string>, picked: string -> bool): (kept: seq<string>)
    ensures |kept| <= |names|
    ensures forall n :: n in kept <==> n in names && picked(n)
  {
    if names == [] then []
    else (if picked(names[0]) then [names[0]] else []) + Filter(names[1..], picked)
  }

  /** Process the picked entries in order; an item that `escapes` is the last one. */
  function RunUntil<R>(names: seq<string>, picked: string -> bool, process: string -> R, escapes: R -> bool): (items: seq<R>)
    ensures |items| <= |names|
  {
    if names == [] then []
    else if !picked(names[0]) then RunUntil(names[1..], picked, process, escapes)
    else if escapes(process(names[0])) then [process(names[0])]
    else [process(names[0])] + RunUntil(names[1..], picked, process, escapes)
  }

  /** The items are the processed picked entries, in listing order. */
  lemma {:induction false} RunProcessesKept<R>(names: seq<string>, picked: string -> bool,
                                               process: string -> R, escapes: R -> bool)
    ensures var items := RunUntil(names, picked, process, escapes);
            var kept := Filter(names, picked);
            && |items| <= |kept|
            && (forall k :: 0 <= k < |items| ==> items[k] == process(kept[k]))
    decreases |names|
  {
    if names != [] {
      var tail := names[1..];
      RunProcessesKept(tail, picked, process, escapes);
      var rest := RunUntil(tail, picked, process, escapes);
      var keptRest := Filter(tail, picked);
      if picked(names[0]) {
        var kept := [names[0]] + keptRest;
        assert Filter(names, picked) == kept;
        if !escapes(process(names[0])) {
          var items := [process(names[0])] + rest;
          assert RunUntil(names, picked, process, escapes) == items;
          forall k | 1 <= k < |items| ensures items[k] == process(kept[k]) {
            assert items[k] == rest[k - 1] && kept[k] == keptRest[k - 1];
          }
        }
      } else {
        assert Filter(names, picked) == keptRest;
      }
    }
  }

  /** No item but the last escapes. */
  lemma {:induction false} RunEscapesOnlyLast<R>(names: seq<string>, picked: string -> bool,
                                                 process: string -> R, escapes: R -> bool)
    ensures forall k :: 0 <= k < |RunUntil(names, picked, process, escapes)| - 1 ==>
              !escapes(RunUntil(names, picked, process, escapes)[k])
    decreases |names|
  {
    if names != [] {
      var tail := names[1..];
      RunEscapesOnlyLast(tail, picked, process, escapes);
      var rest := RunUntil(tail, picked, process, escapes);
      if picked(names[0]) && !escapes(process(names[0])) {
        var items := [process(names[0])] + rest;
        assert RunUntil(names, picked, process, escapes) == items;
        forall k | 0 <= k < |items| - 1 ensures !escapes(items[k]) {
          if k > 0 {
            assert items[k] == rest[k - 1];
          }
        }
      }
    }
  }

  /** A run shorter than the picked entries ends on an escaping item. */
  lemma {:induction false} RunShortOnlyAtEscape<R>(names: seq<string>, picked: string -> bool,
                                                   process: string -> R, escapes: R -> bool)
    ensures var items := RunUntil(names, picked, process, escapes);
            |items| < |Filter(names, picked)| ==> |items| > 0 && escapes(items[|items| - 1])
    decreases |names|
  {
    if names != [] {
      var tail := names[1..];
      RunShortOnlyAtEscape(tail, picked, process, escapes);
      var rest := RunUntil(tail, picked, process, escapes);
      var keptRest := Filter(tail, picked);
      if !picked(names[0]) {
        assert Filter(names, picked) == keptRest;
        assert RunUntil(names, picked, process, escapes) == rest;
      } else if escapes(process(names[0])) {
        assert RunUntil(names, picked, process, escapes) == [process(names[0])];
      } else {
        var items := [process(names[0])] + rest;
        assert Filter(names, picked) == [names[0]] + keptRest;
        assert RunUntil(names, picked, process, escapes) == items;
        if |items| < |Filter(names, picked)| {
          assert |rest| < |keptRest|;
          assert items[|items| - 1] == rest[|rest| - 1];
        }
      }
    }
  }

  /** The items are the processed picked entries, in listing order; only an escaping item cuts
      the run short, and it is then the last item; no earlier item escaped. */
  lemma RunFollowsFilter<R>(names: seq<string>, picked: string -> bool,
                            process: string -> R, escapes: R -> bool)
    ensures var items := RunUntil(names, picked, process, escapes);
            var kept := Filter(names, picked);
            && |items| <= |kept|
            && (forall k :: 0 <= k < |items| ==> items[k] == process(kept[k]))
            && (forall k :: 0 <= k < |items| - 1 ==> !escapes(items[k]))
            && (|items| < |kept| ==> |items| > 0 && escapes(items[|items| - 1]))
  {
    RunProcessesKept(names, picked, process, escapes);
    RunEscapesOnlyLast(names, picked, process, escapes);
    RunShortOnlyAtEscape(names, picked, process, escapes);
  }

  /** When no picked entry escapes, every picked entry is processed. */
  lemma RunCompleteWithoutEscape<R>(names: seq<string>, picked: string -> bool,
                                    process: string -> R, escapes: R -> bool)
    requires forall n :: n in names && picked(n) ==> !escapes(process(n))
    ensures |RunUntil(names, picked, process, escapes)| == |Filter(names, picked)|
  {
    RunFollowsFilter(names, picked, process, escapes);
  }
}
