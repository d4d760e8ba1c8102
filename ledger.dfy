/** The scan pass all three movers share: walk the listed names in order,
    skip every name already in `processed_files`, hand the others to the
    per-file transfer, and record a name exactly when its transfer returned
    true. The transfer itself is a parameter (`step`); each mover module
    supplies its own. */
module Ledger {
  import opened Files

  /** One call of the per-file transfer made by a pass, and what it returned. */
  datatype Attempt = Attempt(name: string, ok: bool)

  /** The filesystem, the `processed_files` set, and the attempts made so far. */
  datatype PassState = PassState(files: FileMap, ledger: set<string>, trace: seq<Attempt>)

  /** A per-file transfer: given the filesystem and a base name, what it returns
      and the filesystem it leaves. */
  type Step = (FileMap, string) -> Effect

  function Start(files: FileMap, ledger: set<string>): PassState
  {
    PassState(files, ledger, [])
  }

  /** The names whose attempts succeeded. */
  function Successes(trace: seq<Attempt>): (s: set<string>)
    ensures forall n :: n in s <==> exists i :: 0 <= i < |trace| && trace[i].ok && trace[i].name == n
  {
    if trace == [] then {}
    else
      var last := trace[|trace| - 1];
      var rest := Successes(trace[..|trace| - 1]);
      assert forall i :: 0 <= i < |trace| - 1 ==> trace[..|trace| - 1][i] == trace[i];
      if last.ok then rest + {last.name} else rest
  }

  /** How many attempts succeeded. */
  function OkCount(trace: seq<Attempt>): nat
  {
    if trace == [] then 0
    else OkCount(trace[..|trace| - 1]) + (if trace[|trace| - 1].ok then 1 else 0)
  }

  /** The body of the scan loop for one listed name. */
  function Visit(step: Step, s: PassState, name: string): (r: PassState)
  {
    if name in s.ledger then s
    else
      var e := step(s.files, name);
      PassState(e.files, if e.ok then s.ledger + {name} else s.ledger, s.trace + [Attempt(name, e.ok)])
  }

  /** The scan loop over `names`, in order. It only appends to the attempts
      and only adds to the ledger. */
  function Pass(step: Step, s: PassState, names: seq<string>): (r: PassState)
    ensures s.trace <= r.trace
    ensures s.ledger <= r.ledger
    ensures |r.trace| <= |s.trace| + |names|
  {
    if names == [] then s
    else Visit(step, Pass(step, s, names[..|names| - 1]), names[|names| - 1])
  }

  /** The ledger only grows; it grows by exactly the names whose attempts in
      this pass succeeded; and every attempt is of a listed name. */
  lemma {:induction false} PassLedgerGrowsOnlyOnSuccess(step: Step, s: PassState, names: seq<string>)
    ensures var r := Pass(step, s, names);
      && r.ledger == s.ledger + Successes(r.trace[|s.trace|..])
      && forall a :: a in r.trace[|s.trace|..] ==> a.name in names
  {
    if names != [] {
      var init := names[..|names| - 1];
      var name := names[|names| - 1];
      PassLedgerGrowsOnlyOnSuccess(step, s, init);
      var mid := Pass(step, s, init);
      var r := Pass(step, s, names);
      assert r == Visit(step, mid, name);
      if name !in mid.ledger {
        var added := r.trace[|s.trace|..];
        assert added == mid.trace[|s.trace|..] + [r.trace[|r.trace| - 1]];
        assert Successes(added) == Successes(mid.trace[|s.trace|..]) + Successes([r.trace[|r.trace| - 1]]);
      }
    }
  }

  /** A name is never attempted while it is in the ledger: no new attempt is
      of a name recorded before the pass, and no attempt is of a name that an
      earlier attempt of the same pass recorded. */
  lemma {:induction false} PassNeverRetriesRecorded(step: Step, s: PassState, names: seq<string>)
    ensures var r := Pass(step, s, names);
      && (forall i :: |s.trace| <= i < |r.trace| ==> r.trace[i].name !in s.ledger)
      && (forall i, j :: |s.trace| <= i < j < |r.trace| && r.trace[i].ok ==> r.trace[j].name != r.trace[i].name)
  {
    if names != [] {
      var init := names[..|names| - 1];
      var name := names[|names| - 1];
      PassNeverRetriesRecorded(step, s, init);
      PassLedgerGrowsOnlyOnSuccess(step, s, init);
      var mid := Pass(step, s, init);
      var r := Pass(step, s, names);
      assert r == Visit(step, mid, name);
      if name !in mid.ledger {
        forall i | |s.trace| <= i < |mid.trace| && r.trace[i].ok
          ensures name != r.trace[i].name
        {
          assert r.trace[i] == mid.trace[i] == mid.trace[|s.trace|..][i - |s.trace|];
        }
      }
    }
  }

  /** Every name recorded by a pass is new, so the number of names the pass
      added to the ledger equals the number of successful attempts. */
  lemma {:induction false} PassCountsInsertions(step: Step, s: PassState, names: seq<string>)
    ensures var r := Pass(step, s, names);
      |r.ledger - s.ledger| == OkCount(r.trace[|s.trace|..])
  {
    if names != [] {
      var init := names[..|names| - 1];
      var name := names[|names| - 1];
      PassCountsInsertions(step, s, init);
      var mid := Pass(step, s, init);
      var r := Pass(step, s, names);
      assert r == Visit(step, mid, name);
      if name in mid.ledger {
        assert r == mid;
      } else {
        var e := step(mid.files, name);
        assert r.trace == mid.trace + [Attempt(name, e.ok)];
        var added := r.trace[|s.trace|..];
        assert added[..|added| - 1] == mid.trace[|s.trace|..];
        assert OkCount(added) == OkCount(mid.trace[|s.trace|..]) + (if e.ok then 1 else 0);
        if e.ok {
          assert r.ledger - s.ledger == (mid.ledger - s.ledger) + {name};
        } else {
          assert r.ledger == mid.ledger;
        }
      }
    }
  }

  /** Over successive passes with the ledger carried from one to the next, a
      name recorded by the first pass is never attempted by the second, even
      when a file of that name is listed again. The two passes may meet the
      filesystem with different answers (`step1`, `step2`), and the second
      starts from `between`, the disk as it is after the wait between passes
      (new files may have arrived, others may have gone). */
  lemma {:induction false} SecondPassSkipsFirstPassSuccesses(
    step1: Step, step2: Step, s: PassState, first: seq<string>, between: FileMap, second: seq<string>)
    ensures var mid := Pass(step1, s, first);
      var r := Pass(step2, mid.(files := between), second);
      forall i, j :: |s.trace| <= i < |mid.trace| <= j < |r.trace| && mid.trace[i].ok ==>
        r.trace[j].name != mid.trace[i].name
  {
    var mid := Pass(step1, s, first);
    var r := Pass(step2, mid.(files := between), second);
    PassLedgerGrowsOnlyOnSuccess(step1, s, first);
    PassNeverRetriesRecorded(step2, mid.(files := between), second);
    forall i, j | |s.trace| <= i < |mid.trace| <= j < |r.trace| && mid.trace[i].ok
      ensures r.trace[j].name != mid.trace[i].name
    {
      assert mid.trace[i] == mid.trace[|s.trace|..][i - |s.trace|];
      assert mid.trace[i].name in mid.ledger;
    }
  }

  /** Over a listing without repeated names, a pass attempts each name at
      most once. */
  lemma {:induction false} PassAttemptsEachNameOnce(step: Step, s: PassState, names: seq<string>)
    requires forall i, j :: 0 <= i < j < |names| ==> names[i] != names[j]
    ensures forall i, j :: |s.trace| <= i < j < |Pass(step, s, names).trace| ==>
      Pass(step, s, names).trace[i].name != Pass(step, s, names).trace[j].name
  {
    if names != [] {
      var init := names[..|names| - 1];
      var name := names[|names| - 1];
      PassAttemptsEachNameOnce(step, s, init);
      PassLedgerGrowsOnlyOnSuccess(step, s, init);
      var mid := Pass(step, s, init);
      var r := Pass(step, s, names);
      assert r == Visit(step, mid, name);
      assert name !in init;
      forall i, j | |s.trace| <= i < j < |r.trace|
        ensures r.trace[i].name != r.trace[j].name
      {
        if j < |mid.trace| {
          assert r.trace[i] == mid.trace[i] && r.trace[j] == mid.trace[j];
        } else {
          assert r.trace[i] == mid.trace[i] == mid.trace[|s.trace|..][i - |s.trace|];
        }
      }
      assert r == Pass(step, s, names);
    }
  }

  /** No listed name is passed over unless it was already in the ledger:
      every listed name missing from the ledger at the start of the pass is
      attempted at least once. */
  lemma {:induction false} PassAttemptsEveryNewName(step: Step, s: PassState, names: seq<string>)
    ensures forall n :: n in names && n !in s.ledger ==>
      exists i :: |s.trace| <= i < |Pass(step, s, names).trace| && Pass(step, s, names).trace[i].name == n
  {
    if names != [] {
      var init := names[..|names| - 1];
      var name := names[|names| - 1];
      PassAttemptsEveryNewName(step, s, init);
      PassLedgerGrowsOnlyOnSuccess(step, s, init);
      var mid := Pass(step, s, init);
      var r := Pass(step, s, names);
      assert r == Visit(step, mid, name);
      assert mid.trace <= r.trace;
      forall n | n in names && n !in s.ledger
        ensures exists i :: |s.trace| <= i < |r.trace| && r.trace[i].name == n
      {
        if n in init {
          var i :| |s.trace| <= i < |mid.trace| && mid.trace[i].name == n;
          assert r.trace[i] == mid.trace[i];
        } else {
          // a name first listed last cannot have been recorded by `init`
          assert name !in mid.ledger;
          assert r.trace[|r.trace| - 1].name == n;
        }
      }
      assert r == Pass(step, s, names);
    }
  }

  /** A pass over `first + rest` is the pass over `first` resumed over
      `rest`: stopping after `first` and going on later changes nothing. */
  lemma {:induction false} PassResumes(step: Step, s: PassState, first: seq<string>, rest: seq<string>)
    ensures Pass(step, s, first + rest) == Pass(step, Pass(step, s, first), rest)
  {
    if rest == [] {
      assert first + rest == first;
    } else {
      var init := rest[..|rest| - 1];
      PassResumes(step, s, first, init);
      assert (first + rest)[..|first + rest| - 1] == first + init;
      assert (first + rest)[|first + rest| - 1] == rest[|rest| - 1];
    }
  }

  /** No attempt in `attempts` is of a name whose transfer may touch `p`. */
  predicate OutsideAll(touched: string -> set<Path>, attempts: seq<Attempt>, p: Path)
  {
    forall a :: a in attempts ==> p !in touched(a.name)
  }

  /** A pass changes only files the transfer of an attempted name may touch:
      if `touched(n)` bounds what one transfer of `n` changes, every path
      outside the bounds of all attempted names is left as it was. */
  lemma {:induction false} PassTouchesOnlyAttempted(step: Step, touched: string -> set<Path>, s: PassState, names: seq<string>)
    requires forall f: FileMap, n: string, p: Path :: p !in touched(n) ==> SameAt(f, step(f, n).files, p)
    ensures forall p :: OutsideAll(touched, Pass(step, s, names).trace[|s.trace|..], p) ==>
      SameAt(s.files, Pass(step, s, names).files, p)
  {
    if names != [] {
      var init := names[..|names| - 1];
      var name := names[|names| - 1];
      PassTouchesOnlyAttempted(step, touched, s, init);
      var mid := Pass(step, s, init);
      var r := Pass(step, s, names);
      assert r == Visit(step, mid, name);
      forall p | OutsideAll(touched, r.trace[|s.trace|..], p)
        ensures SameAt(s.files, r.files, p)
      {
        if name in mid.ledger {
          assert r == mid;
          assert SameAt(s.files, mid.files, p);
        } else {
          var last := Attempt(name, step(mid.files, name).ok);
          assert r.trace[|s.trace|..] == mid.trace[|s.trace|..] + [last];
          assert last in r.trace[|s.trace|..];
          assert OutsideAll(touched, mid.trace[|s.trace|..], p);
          assert SameAt(s.files, mid.files, p);
          assert p !in touched(name);
          assert SameAt(mid.files, step(mid.files, name).files, p);
        }
      }
    }
  }
}
