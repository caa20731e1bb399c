/**
 `fct_nlist`: an array that grows by `2 * n + 2` when it is full and never shrinks.
 */
module GrowableList {

  const GROWTH_FACTOR := 2

  // ---- Sizes and copying over a whole run ----------------------------------

  datatype ListOp = Append | Clear

  /** Capacity, length, elements copied by growth so far, and appends so far. */
  datatype Shape = Shape(avail: nat, used: nat, copied: nat, appended: nat)

  function Step(s: Shape, op: ListOp): Shape {
    match op
    case Clear => s.(used := 0)
    case Append =>
      if s.used == s.avail then
        Shape(s.avail * GROWTH_FACTOR + GROWTH_FACTOR, s.used + 1, s.copied + s.avail, s.appended + 1)
      else
        s.(used := s.used + 1, appended := s.appended + 1)
  }

  function Run(start: nat, ops: seq<ListOp>): Shape {
    if ops == [] then Shape(start, 0, 0, 0) else Step(Run(start, ops[..|ops| - 1]), ops[|ops| - 1])
  }

  function Appends(ops: seq<ListOp>): nat {
    if ops == [] then 0 else Appends(ops[..|ops| - 1]) + if ops[|ops| - 1].Append? then 1 else 0
  }

  /**
   From any start size and over any run, clears included, growth copies at most two elements
   per append, and at no time more than the current capacity in all.
   */
  lemma {:induction false} AppendIsAmortized(start: nat, ops: seq<ListOp>)
    ensures var s := Run(start, ops);
      && s.used <= s.avail && s.used <= s.appended && s.appended == Appends(ops)
      && s.copied <= s.avail && s.copied <= 2 * Appends(ops)
  {
    if ops != [] {
      AppendIsAmortized(start, ops[..|ops| - 1]);
    }
  }

  // ---- The list ------------------------------------------------------------

  class NList<T(0)> {
    var itmList: array<T>
    var availItmNum: nat
    var usedItmNum: nat
    ghost var copied: nat
    ghost var appended: nat

    ghost predicate Valid()
      reads this
    {
      itmList.Length == availItmNum && usedItmNum <= availItmNum
    }

    ghost function Contents(): seq<T>
      reads this, itmList
      requires Valid()
    {
      itmList[..usedItmNum]
    }

    ghost function Sizes(): Shape
      reads this
    {
      Shape(availItmNum, usedItmNum, copied, appended)
    }

    /** `fct_nlist__init2` */
    constructor (startSize: nat)
      ensures Valid() && fresh(itmList) && Contents() == [] && Sizes() == Run(startSize, [])
    {
      itmList := new T[startSize];
      availItmNum, usedItmNum := startSize, 0;
      copied, appended := 0, 0;
    }

    method Clear()
      requires Valid()
      modifies this
      ensures Valid() && itmList == old(itmList) && Contents() == [] && Sizes() == Step(old(Sizes()), ListOp.Clear)
    {
      usedItmNum := 0;
    }

    method Size() returns (n: nat)
      requires Valid()
      ensures n == |Contents()|
    {
      n := usedItmNum;
    }

    method At(idx: nat) returns (itm: T)
      requires Valid() && idx < |Contents()|
      ensures itm == Contents()[idx]
    {
      itm := itmList[idx];
    }

    method Append(itm: T)
      requires Valid()
      modifies this, itmList
      ensures Valid() && (itmList == old(itmList) || fresh(itmList))
      ensures Contents() == old(Contents()) + [itm]
      ensures Sizes() == Step(old(Sizes()), ListOp.Append)
      ensures copied == old(copied) + if old(usedItmNum) == old(availItmNum) then |old(Contents())| else 0
      ensures availItmNum == if old(usedItmNum) == old(availItmNum) then 2 * old(availItmNum) + 2 else old(availItmNum)
    {
      if usedItmNum == availItmNum {
        copied := copied + availItmNum;
        availItmNum := availItmNum * GROWTH_FACTOR + GROWTH_FACTOR;
        itmList := Realloc(itmList, availItmNum);
      }
      itmList[usedItmNum] := itm;
      usedItmNum := usedItmNum + 1;
      appended := appended + 1;
    }

    static method Realloc(list: array<T>, size: nat) returns (bigger: array<T>)
      requires list.Length <= size
      ensures fresh(bigger) && bigger.Length == size && bigger[..list.Length] == list[..]
    {
      bigger := new T[size];
      forall i | 0 <= i < list.Length {
        bigger[i] := list[i];
      }
    }
  }
}
