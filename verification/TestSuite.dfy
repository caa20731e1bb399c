/**
 The fixture suite of fct.h: the body of a suite is gone through again and again, and a mode
 decides in each pass whether the tests are counted, one is set up and run, or torn down.
 */
module TestSuite {

  // ---- Filters -------------------------------------------------------------

  /** `fct_filter_pass`: compares character by character until one of the two ends. */
  method FilterPass(prefix: string, name: string) returns (pass: bool)
    ensures pass <==> prefix <= name
  {
    var isMatch := false;
    if prefix == [] {
      return true;
    }
    var i := 0;
    while i < |prefix| && i < |name|
      invariant 0 <= i <= |prefix| && i <= |name| && prefix[..i] == name[..i]
      invariant i > 0 ==> isMatch
    {
      isMatch := prefix[i] == name[i];
      if !isMatch {
        assert prefix[i] != name[..|name|][i];
        return false;
      }
      i := i + 1;
    }
    if i == |name| && i != |prefix| {
      return false;
    }
    return isMatch;
  }

  predicate Selected(filters: seq<string>, name: string) {
    filters == [] || exists f | f in filters :: f <= name
  }

  /** `fctkern__pass_filter` */
  method PassFilter(filters: seq<string>, name: string) returns (pass: bool)
    ensures pass <==> filters == [] || exists f | f in filters :: f <= name
  {
    if |filters| == 0 {
      return true;
    }
    for i := 0 to |filters|
      invariant forall k | 0 <= k < i :: !(filters[k] <= name)
    {
      var match_ := FilterPass(filters[i], name);
      if match_ {
        assert filters[i] in filters;
        return true;
      }
    }
    return false;
  }

  // ---- The mode machine ----------------------------------------------------

  datatype Mode = Cnt | Setup | Teardown | Test | Ending | End | Abort

  datatype Event = SetUp | TearDown | RunTest(index: nat)

  /** The whole log of a suite: each test set up, run if it is selected, and torn down. */
  function Log(names: seq<string>, filters: seq<string>, n: nat): seq<Event>
    requires n <= |names|
  {
    if n == 0 then []
    else Log(names, filters, n - 1) + [SetUp] + RunOf(names, filters, n - 1) + [TearDown]
  }

  function RunOf(names: seq<string>, filters: seq<string>, i: nat): seq<Event>
    requires i < |names|
  {
    if Selected(filters, names[i]) then [RunTest(i)] else []
  }

  /** The selected tests among the first `n`, in order. */
  function Executed(names: seq<string>, filters: seq<string>, n: nat): seq<nat>
    requires n <= |names|
  {
    if n == 0 then []
    else Executed(names, filters, n - 1) + if Selected(filters, names[n - 1]) then [n - 1] else []
  }

  /** How often an event occurs. */
  function Count(log: seq<Event>, e: Event): nat {
    if log == [] then 0 else (if log[0] == e then 1 else 0) + Count(log[1..], e)
  }

  lemma {:induction false} CountConcat(s: seq<Event>, t: seq<Event>, e: Event)
    ensures Count(s + t, e) == Count(s, e) + Count(t, e)
  {
    if s == [] {
      assert s + t == t;
    } else {
      assert (s + t)[1..] == s[1..] + t;
      CountConcat(s[1..], t, e);
    }
  }

  /** Every test is set up and torn down once, every selected test runs exactly once, and no other runs. */
  lemma {:induction false} LogIsComplete(names: seq<string>, filters: seq<string>, n: nat, e: Event)
    requires n <= |names|
    ensures Count(Log(names, filters, n), e) ==
            match e
            case SetUp => n
            case TearDown => n
            case RunTest(i) => if i < n && Selected(filters, names[i]) then 1 else 0
  {
    if n > 0 {
      LogIsComplete(names, filters, n - 1, e);
      var before, ran := Log(names, filters, n - 1), RunOf(names, filters, n - 1);
      CountConcat(before + [SetUp] + ran, [TearDown], e);
      CountConcat(before + [SetUp], ran, e);
      CountConcat(before, [SetUp], e);
    }
  }

  ghost predicate InOrder(log: seq<Event>, n: nat) {
    && (forall a, b | 0 <= a < b < |log| && log[a].RunTest? && log[b].RunTest? :: log[a].index < log[b].index)
    && (forall a | 0 <= a < |log| && log[a].RunTest? :: log[a].index < n)
  }

  /** The tests run in the order of the source. */
  lemma {:induction false} LogIsInOrder(names: seq<string>, filters: seq<string>, n: nat)
    requires n <= |names|
    ensures InOrder(Log(names, filters, n), n)
  {
    if n > 0 {
      LogIsInOrder(names, filters, n - 1);
      InOrderGrows(Log(names, filters, n - 1), RunOf(names, filters, n - 1), n - 1);
    }
  }

  lemma InOrderGrows(before: seq<Event>, ran: seq<Event>, n: nat)
    requires InOrder(before, n) && (ran == [] || ran == [RunTest(n)])
    ensures InOrder(before + [SetUp] + ran + [TearDown], n + 1)
  {
    var log := before + [SetUp] + ran + [TearDown];
    assert forall a | 0 <= a < |before| :: log[a] == before[a];
    assert forall a | |before| <= a < |log| && log[a].RunTest? :: a == |before| + 1 && log[a] == RunTest(n);
  }

  /** The selected tests, each once and in source order. */
  lemma {:induction false} ExecutedAre(names: seq<string>, filters: seq<string>, n: nat)
    requires n <= |names|
    ensures var ran := Executed(names, filters, n);
      && (forall i, j | 0 <= i < j < |ran| :: ran[i] < ran[j])
      && forall i :: i in ran <==> 0 <= i < n && (filters == [] || exists f | f in filters :: f <= names[i])
  {
    if n > 0 {
      ExecutedAre(names, filters, n - 1);
      var before := Executed(names, filters, n - 1);
      assert forall i | 0 <= i < |before| :: before[i] in before;
    }
  }

  /** Every test runs directly between its own setup and its own teardown. */
  lemma {:induction false} TestIsFramed(names: seq<string>, filters: seq<string>, n: nat, k: nat)
    requires n <= |names| && k < |Log(names, filters, n)| && Log(names, filters, n)[k].RunTest?
    ensures var log := Log(names, filters, n);
      0 < k < |log| - 1 && log[k - 1] == SetUp && log[k + 1] == TearDown
  {
    var before, log, ran := Log(names, filters, n - 1), Log(names, filters, n), RunOf(names, filters, n - 1);
    if k < |before| {
      assert before[k] == log[k];
      TestIsFramed(names, filters, n - 1, k);
    } else {
      assert k == |before| + 1 && |ran| == 1;
    }
  }

  /** At any time there have been as many setups as teardowns, or one more. */
  lemma {:induction false} SetupsAreBalanced(names: seq<string>, filters: seq<string>, n: nat, m: nat)
    requires n <= |names| && m <= |Log(names, filters, n)|
    ensures var log := Log(names, filters, n)[..m];
      0 <= Count(log, SetUp) - Count(log, TearDown) <= 1
  {
    if n > 0 {
      var before, ran := Log(names, filters, n - 1), RunOf(names, filters, n - 1);
      var log := Log(names, filters, n)[..m];
      if m <= |before| {
        SetupsAreBalanced(names, filters, n - 1, m);
        assert log == before[..m];
      } else {
        LogIsComplete(names, filters, n - 1, SetUp);
        LogIsComplete(names, filters, n - 1, TearDown);
        var turn := ([SetUp] + ran + [TearDown])[..m - |before|];
        assert log == before + turn;
        hide Log, Count;
        CountConcat(before, turn, SetUp);
        CountConcat(before, turn, TearDown);
        TurnIsBalanced(ran, n - 1, m - |before|);
      }
    }
  }

  lemma TurnIsBalanced(ran: seq<Event>, i: nat, m: nat)
    requires (ran == [] || ran == [RunTest(i)]) && m <= |ran| + 2
    ensures var t := ([SetUp] + ran + [TearDown])[..m]; 0 <= Count(t, SetUp) - Count(t, TearDown) <= 1
  {
    var turn := [SetUp] + ran + [TearDown];
    if m <= |ran| + 1 {
      assert m > 0 ==> turn[..m] == [SetUp] + ran[..m - 1];
      assert ran[..|ran|] == ran;
      assert m == |ran| + 1 ==> ran[..m - 1] == ran;
    } else {
      assert turn[..m] == ([SetUp] + ran) + [TearDown];
      CountConcat([SetUp] + ran, [TearDown], SetUp);
      CountConcat([SetUp] + ran, [TearDown], TearDown);
    }
    CountConcat([SetUp], ran, SetUp);
    CountConcat([SetUp], ran, TearDown);
  }

  class Suite {
    var mode: Mode
    var currTestNum: nat
    var totalTestNum: nat
    var tests: seq<nat>  // the tests that ran, as collected in test_list

    constructor ()
      ensures mode == Cnt && currTestNum == 0 && totalTestNum == 0 && tests == []
    {
      mode, currTestNum, totalTestNum, tests := Cnt, 0, 0, [];
    }

    // The preconditions below are the assertions of the source.

    method IncTotalTestNum()
      requires mode == Cnt
      modifies `totalTestNum
      ensures totalTestNum == old(totalTestNum) + 1
    {
      totalTestNum := totalTestNum + 1;
    }

    method CntEnd()
      requires mode == Cnt
      modifies `mode
      ensures mode == if totalTestNum == 0 then Ending else Setup
    {
      mode := if totalTestNum == 0 then Ending else Setup;
    }

    method SetupEnd()
      modifies `mode
      ensures mode == if old(mode) == Abort then Abort else Test
    {
      if mode != Abort {
        mode := Test;
      }
    }

    method TeardownEnd()
      requires mode != End
      modifies `mode
      ensures mode == if old(mode) == Abort then Abort else if currTestNum < totalTestNum then Setup else Ending
    {
      if mode == Abort {
        return;
      }
      mode := if currTestNum < totalTestNum then Setup else Ending;
    }

    method IsTestCnt(testNum: nat) returns (current: bool)
      requires testNum < totalTestNum && mode != End
      ensures current <==> testNum == currTestNum
    {
      return testNum == currTestNum;
    }

    /**
     The tests of one pass, from the macro of each test in turn. In count mode all are
     counted; in test mode the current one is dealt with and the rest are skipped.
     `leave` tells whether the pass ends here (the `continue` of the macro).
     */
    method VisitTests(names: seq<string>, filters: seq<string>, log0: seq<Event>)
      returns (log: seq<Event>, leave: bool)
      requires mode in {Cnt, Test}
      requires mode == Cnt ==> totalTestNum == 0
      requires mode == Test ==> currTestNum < totalTestNum == |names|
      modifies this
      ensures leave <==> old(mode) == Test
      ensures old(mode) == Cnt ==>
        totalTestNum == |names| && mode == Cnt && currTestNum == old(currTestNum) && tests == old(tests) && log == log0
      ensures old(mode) == Test ==>
        && mode == Teardown && totalTestNum == |names| && currTestNum == old(currTestNum) + 1
        && log == log0 + RunOf(names, filters, old(currTestNum))
        && tests == old(tests) + (if Selected(filters, names[old(currTestNum)]) then [old(currTestNum)] else [])
    {
      log := log0;
      for testNum := 0 to |names|
        invariant mode == old(mode) && currTestNum == old(currTestNum) && tests == old(tests) && log == log0
        invariant totalTestNum == if mode == Cnt then testNum else old(totalTestNum)
        invariant mode == Test ==> testNum <= currTestNum
      {
        if mode == Cnt {
          IncTotalTestNum();
        } else if mode == Test {
          var current := IsTestCnt(testNum);
          if current {
            currTestNum := currTestNum + 1;
            var pass := PassFilter(filters, names[testNum]);
            if pass {
              log := log + [RunTest(testNum)];
              tests := tests + [testNum];
            } else {
              assert log + [] == log;
            }
            mode := Teardown;
            return log, true;
          }
        }
      }
      return log, false;
    }

    /**
     A suite of any number of tests with its setup and teardown ahead of them ends after
     2 n + 2 passes, with the log that is due.
     */
    method Run(names: seq<string>, filters: seq<string>) returns (log: seq<Event>, passes: nat)
      requires mode == Cnt && currTestNum == 0 && totalTestNum == 0 && tests == []
      modifies this
      ensures mode == End && totalTestNum == currTestNum == |names|
      ensures passes == 2 * |names| + 2 && log == Log(names, filters, |names|)
      ensures tests == Executed(names, filters, |names|)
    {
      log, passes := [], 0;
      var n := |names|;
      while true
        invariant mode in {Cnt, Setup, Teardown, Ending} && currTestNum <= n
        invariant mode == Cnt ==> currTestNum == 0 && totalTestNum == 0 && passes == 0
        invariant mode != Cnt ==> totalTestNum == n
        invariant mode == Setup ==> currTestNum < n && passes == 1 + 2 * currTestNum
        invariant mode == Teardown ==> currTestNum > 0 && passes == 2 * currTestNum
        invariant mode == Ending ==> currTestNum == n && passes == 1 + 2 * n
        invariant if mode == Teardown then log + [TearDown] == Log(names, filters, currTestNum)
                  else log == Log(names, filters, currTestNum)
        invariant tests == Executed(names, filters, currTestNum)
        decreases 2 * n + 2 - passes
      {
        passes := passes + 1;
        if mode == Ending || mode == Abort {
          mode := End;
          break;
        }
        if mode == Setup {
          log := log + [SetUp];
          SetupEnd();
        }
        if mode == Teardown {
          log := log + [TearDown];
          TeardownEnd();
          continue;
        }
        var leave;
        log, leave := VisitTests(names, filters, log);
        if leave {
          continue;
        }
        if mode == Cnt {
          CntEnd();
        }
      }
    }
  }
}
