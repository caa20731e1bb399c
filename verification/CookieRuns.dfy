/**
 What runs of operations leave in a cookie: every setter sets its own field and no other, the
 last one wins, and the modified flags tell which groups of fields were changed.
 */
module CookieRuns {
  import opened Bytes
  import opened VarIndex
  import opened VarProperties
  import opened Cookies
  import opened Codec

  // ---- Fields --------------------------------------------------------------

  /** What an operation does not set stays as it was. */
  lemma OthersStay(c: Cookie, op: CookieOp)
    ensures var d := Apply(c, op);
      && d.key == c.key && d.flags.newCookie == c.flags.newCookie
      && (!op.FirstHit? ==> d.firstHit == c.firstHit)
      && (!op.LastHit? ==> d.lastHit == c.lastHit)
      && (!op.LastHitLocal? ==> d.lastHitLocal == c.lastHitLocal)
      && (!op.VisitNum? ==> d.visitNum == c.visitNum)
      && (!op.LastPurchase? ==> d.lastPurchase == c.lastPurchase)
      && (!op.Referrer? ==> d.referrer == c.referrer)
      && (!op.Url? ==> d.url == c.url)
      && (!op.Pagename? ==> d.pagename == c.pagename)
      && (!op.PurchaseNum? ==> d.purchaseNum == c.purchaseNum)
      && (!op.Merchandising? ==> d.merchandising == c.merchandising)
      && (!op.PurchaseId? ==> d.purchaseIds == c.purchaseIds)
      && (!op.SetVariable? && !op.ClearVariable? && !op.AddElement? ==> d.vars == c.vars)
  {
    hide SetVar, Clear, Put, Pos, Elems;
  }

  lemma {:induction false} TrafficStays(c: Cookie, ops: seq<CookieOp>)
    ensures var d := ApplyAll(c, ops);
      && ((forall op | op in ops :: !op.FirstHit?) ==> d.firstHit == c.firstHit)
      && ((forall op | op in ops :: !op.LastHit?) ==> d.lastHit == c.lastHit)
      && ((forall op | op in ops :: !op.LastHitLocal?) ==> d.lastHitLocal == c.lastHitLocal)
      && ((forall op | op in ops :: !op.VisitNum?) ==> d.visitNum == c.visitNum)
    decreases |ops|
  {
    if ops != [] {
      OthersStay(c, ops[0]);
      hide Apply;
      assert ops[0] in ops && forall op | op in ops[1..] :: op in ops;
      TrafficStays(Apply(c, ops[0]), ops[1..]);
    }
  }

  lemma {:induction false} PurchaseStays(c: Cookie, ops: seq<CookieOp>)
    ensures var d := ApplyAll(c, ops);
      && ((forall op | op in ops :: !op.LastPurchase?) ==> d.lastPurchase == c.lastPurchase)
      && ((forall op | op in ops :: !op.Referrer?) ==> d.referrer == c.referrer)
      && ((forall op | op in ops :: !op.Url?) ==> d.url == c.url)
      && ((forall op | op in ops :: !op.Pagename?) ==> d.pagename == c.pagename)
      && ((forall op | op in ops :: !op.PurchaseNum?) ==> d.purchaseNum == c.purchaseNum)
    decreases |ops|
  {
    if ops != [] {
      OthersStay(c, ops[0]);
      hide Apply;
      assert ops[0] in ops && forall op | op in ops[1..] :: op in ops;
      PurchaseStays(Apply(c, ops[0]), ops[1..]);
    }
  }

  lemma {:induction false} RestStays(c: Cookie, ops: seq<CookieOp>)
    ensures var d := ApplyAll(c, ops);
      && d.key == c.key && d.flags.newCookie == c.flags.newCookie
      && ((forall op | op in ops :: !op.Merchandising?) ==> d.merchandising == c.merchandising)
      && ((forall op | op in ops :: !op.PurchaseId?) ==> d.purchaseIds == c.purchaseIds)
      && ((forall op | op in ops :: !op.SetVariable? && !op.ClearVariable? && !op.AddElement?) ==> d.vars == c.vars)
    decreases |ops|
  {
    if ops != [] {
      OthersStay(c, ops[0]);
      hide Apply;
      assert ops[0] in ops && forall op | op in ops[1..] :: op in ops;
      RestStays(Apply(c, ops[0]), ops[1..]);
    }
  }

  /** What no operation of a run sets stays as it was. */
  lemma NeverSetStays(c: Cookie, ops: seq<CookieOp>)
    ensures var d := ApplyAll(c, ops);
      && d.key == c.key && d.flags.newCookie == c.flags.newCookie
      && ((forall op | op in ops :: !op.FirstHit?) ==> d.firstHit == c.firstHit)
      && ((forall op | op in ops :: !op.LastHit?) ==> d.lastHit == c.lastHit)
      && ((forall op | op in ops :: !op.LastHitLocal?) ==> d.lastHitLocal == c.lastHitLocal)
      && ((forall op | op in ops :: !op.VisitNum?) ==> d.visitNum == c.visitNum)
      && ((forall op | op in ops :: !op.LastPurchase?) ==> d.lastPurchase == c.lastPurchase)
      && ((forall op | op in ops :: !op.Referrer?) ==> d.referrer == c.referrer)
      && ((forall op | op in ops :: !op.Url?) ==> d.url == c.url)
      && ((forall op | op in ops :: !op.Pagename?) ==> d.pagename == c.pagename)
      && ((forall op | op in ops :: !op.PurchaseNum?) ==> d.purchaseNum == c.purchaseNum)
      && ((forall op | op in ops :: !op.Merchandising?) ==> d.merchandising == c.merchandising)
      && ((forall op | op in ops :: !op.PurchaseId?) ==> d.purchaseIds == c.purchaseIds)
      && ((forall op | op in ops :: !op.SetVariable? && !op.ClearVariable? && !op.AddElement?) ==> d.vars == c.vars)
  {
    hide *;
    TrafficStays(c, ops);
    PurchaseStays(c, ops);
    RestStays(c, ops);
  }

  /** The last value set is the one that is there. */
  lemma LastSetWins(c: Cookie, before: seq<CookieOp>, op: CookieOp, after: seq<CookieOp>)
    ensures var d := ApplyAll(c, before + [op] + after);
      match op
      case FirstHit(t) => (forall o | o in after :: !o.FirstHit?) ==> d.firstHit == t
      case LastHit(t) => (forall o | o in after :: !o.LastHit?) ==> d.lastHit == t
      case LastHitLocal(t) => (forall o | o in after :: !o.LastHitLocal?) ==> d.lastHitLocal == t
      case VisitNum(n) => (forall o | o in after :: !o.VisitNum?) ==> d.visitNum == n
      case LastPurchase(t) => (forall o | o in after :: !o.LastPurchase?) ==> d.lastPurchase == t
      case Referrer(s) => (forall o | o in after :: !o.Referrer?) ==> d.referrer == s
      case Url(s) => (forall o | o in after :: !o.Url?) ==> d.url == s
      case Pagename(s) => (forall o | o in after :: !o.Pagename?) ==> d.pagename == s
      case PurchaseNum(n) => (forall o | o in after :: !o.PurchaseNum?) ==> d.purchaseNum == n
      case Merchandising(s) => (forall o | o in after :: !o.Merchandising?) ==> d.merchandising == s
      case _ => true
  {
    var b := ApplyAll(c, before);
    ApplyConcat(c, before + [op], after);
    ApplyConcat(c, before, [op]);
    ApplyOne(b, op);
    NeverSetStays(Apply(b, op), after);
  }

  // ---- Flags ---------------------------------------------------------------

  /** Which flags one operation leaves. */
  lemma FlagsOfOne(c: Cookie, op: CookieOp)
    ensures var f, g := c.flags, Apply(c, op).flags;
      && (g.traffic <==> f.traffic || op.FirstHit? || op.LastHit? || op.LastHitLocal? || op.VisitNum?)
      && (g.ecommerce <==> || f.ecommerce || op.LastPurchase? || op.Referrer? || op.Url? || op.Pagename?
                           || op.PurchaseNum? || (op.PurchaseId? && op.s !in c.purchaseIds))
      && (g.merchandising <==> f.merchandising || op.Merchandising?)
      && (g.relVar <==> || f.relVar || op.AddElement?
                        || (op.SetVariable? && op.e.value != [] && !(op.alloc.First? && |Elems(c.vars, op.rid)| == 1)))
  {
    hide SetVar, Clear, Put, Pos, Elems;
    if op.PurchaseId? {
    } else if op.SetVariable? {
    } else {
    }
  }

  lemma ModifiedByOne(c: Cookie, op: CookieOp)
    ensures var f, g := c.flags, Apply(c, op).flags;
      && (g == f || g.modified) && (f.modified ==> g.modified)
      && (g.modified && !f.modified ==> g.traffic || g.ecommerce || g.merchandising || g.relVar)
      && (f.traffic ==> g.traffic) && (f.ecommerce ==> g.ecommerce)
      && (f.merchandising ==> g.merchandising) && (f.relVar ==> g.relVar)
  {
    hide SetVar, Clear, Put, Pos, Elems;
  }

  /**
   From an unmarked cookie: each group flag is set exactly when some operation of the run
   changed that group, and the modified flag exactly when one of the group flags is.
   */
  lemma {:induction false} FlagsOfRun(c: Cookie, ops: seq<CookieOp>)
    requires c.flags == Flags(c.flags.newCookie, false, false, false, false, false)
    ensures var f := ApplyAll(c, ops).flags;
      && (f.traffic <==> exists op :: op in ops && (op.FirstHit? || op.LastHit? || op.LastHitLocal? || op.VisitNum?))
      && (f.merchandising <==> exists op :: op in ops && op.Merchandising?)
      && (f.ecommerce <==> exists k :: 0 <= k < |ops| && ChangesEcommerce(ApplyAll(c, ops[..k]), ops[k]))
      && (f.relVar <==> exists k :: 0 <= k < |ops| && ChangesVariables(ApplyAll(c, ops[..k]), ops[k]))
      && (f.modified <==> f.traffic || f.ecommerce || f.merchandising || f.relVar)
  {
    if ops != [] {
      var n := |ops| - 1;
      var init := ops[..n];
      var b := ApplyAll(c, init);
      assert ops == init + [ops[n]];
      FlagsOfRun(c, init);
      ApplyConcat(c, init, [ops[n]]);
      ApplyOne(b, ops[n]);
      FlagsOfOne(b, ops[n]);
      ModifiedByOne(b, ops[n]);
      hide Apply, ApplyAll, Elems;
      assert forall op :: op in ops <==> op in init || op == ops[n];
      assert forall k | 0 <= k < n :: init[..k] == ops[..k];
    }
  }

  /** A purchase field was set, or an id used that was not in the list. */
  ghost predicate ChangesEcommerce(c: Cookie, op: CookieOp) {
    || op.LastPurchase? || op.Referrer? || op.Url? || op.Pagename? || op.PurchaseNum?
    || (op.PurchaseId? && op.s !in c.purchaseIds)
  }

  /** An element was written: not a clear, and not a FIRST allocation that keeps what is there. */
  ghost predicate ChangesVariables(c: Cookie, op: CookieOp) {
    || op.AddElement?
    || (op.SetVariable? && op.e.value != [] && !(op.alloc.First? && |Elems(c.vars, op.rid)| == 1))
  }

  // ---- Decoding into a cookie that holds something already -----------------

  lemma OneAdd(s: Cookie, rid: RelationId, e: RelVar)
    requires Ascending(s.vars)
    ensures var d := Apply(s, AddElement(rid, e));
      && Ascending(d.vars) && ToMap(d.vars) == ToMap(s.vars)[rid := Get(ToMap(s.vars), rid) + [e]]
  {
    ToMapElems(s.vars, rid);
    hide Ascending, Put, Elems, ToMap;
    PutMap(s.vars, rid, Elems(s.vars, rid) + [e]);
  }

  lemma SetTwice<K, V>(m: map<K, V>, k: K, v: V, w: V)
    ensures m[k := v][k := w] == m[k := w]
  {
  }

  lemma {:induction false} AddsOver(s: Cookie, rid: RelationId, count: UInt32, es: seq<RelVar>)
    requires Ascending(s.vars) && rid in ToMap(s.vars)
    ensures var d, m := ApplyAll(s, ElemOps(rid, count, es, true)), ToMap(s.vars);
      Ascending(d.vars) && ToMap(d.vars) == m[rid := m[rid] + es]
    decreases |es|
  {
    var m := ToMap(s.vars);
    if es == [] {
      assert m[rid] + es == m[rid];
    } else {
      var ops := ElemOps(rid, count, es, true);
      assert ops[0] == AddElement(rid, es[0]) && ops[1..] == ElemOps(rid, count, es[1..], true);
      assert ApplyAll(s, ops) == ApplyAll(Apply(s, ops[0]), ops[1..]);
      hide Ascending, ToMap, Apply, ElemOps, ApplyAll;
      OneAdd(s, rid, es[0]);
      AddsOver(Apply(s, ops[0]), rid, count, es[1..]);
      Assoc(m[rid], [es[0]], es[1..]);
      assert [es[0]] + es[1..] == es;
      SetTwice(m, rid, m[rid] + [es[0]], m[rid] + es);
    }
  }

  lemma OneSet(s: Cookie, rid: RelationId, e: RelVar, count: UInt32)
    requires Ascending(s.vars) && count > 1 && e.value != []
    ensures var d, m := Apply(s, SetVariable(rid, e, Linear, count)), ToMap(s.vars);
      Ascending(d.vars) && ToMap(d.vars) == m[rid := Window(Get(m, rid), count - 1) + [e]]
  {
    var had := Elems(s.vars, rid);
    var kept := Window(had, count - 1);
    assert Room(had, count) == kept;
    assert (kept + [BLANK])[|kept| := e] == kept + [e];
    ToMapElems(s.vars, rid);
    hide Ascending, Put, Elems, ToMap, Window;
    PutMap(s.vars, rid, kept + [e]);
  }

  /**
   A group of several elements read into a cookie that has the variable already: the old
   elements are not replaced. As many of them stay as there are new ones, less one.
   */
  lemma GroupOverOld(s: Cookie, rid: RelationId, elems: seq<RelVar>)
    requires Ascending(s.vars) && 1 < |elems| < 0x1_0000_0000 && elems[0].value != []
    ensures var d, m := ApplyAll(s, ElemOps(rid, |elems|, elems, false)), ToMap(s.vars);
      && Ascending(d.vars)
      && ToMap(d.vars) == m[rid := Window(Get(m, rid), |elems| - 1) + elems]
  {
    var count, m := |elems|, ToMap(s.vars);
    var ops, kept := ElemOps(rid, count, elems, false), Window(Get(m, rid), count - 1);
    assert ops[0] == SetVariable(rid, elems[0], Linear, count) && ops[1..] == ElemOps(rid, count, elems[1..], true);
    assert ApplyAll(s, ops) == ApplyAll(Apply(s, ops[0]), ops[1..]);
    hide Ascending, ToMap, Apply, ElemOps, ApplyAll, Window, Get;
    OneSet(s, rid, elems[0], count);
    AddsOver(Apply(s, ops[0]), rid, count, elems[1..]);
    Assoc(kept, [elems[0]], elems[1..]);
    assert [elems[0]] + elems[1..] == elems;
    SetTwice(m, rid, kept + [elems[0]], kept + elems);
  }

  /** A group of one element replaces the old ones, or, if it is empty, clears what a lookup finds. */
  lemma LoneElementOverOld(s: Cookie, rid: RelationId, e: RelVar)
    requires Ascending(s.vars)
    ensures var d := ApplyAll(s, ElemOps(rid, 1, [e], false)); var m := ToMap(s.vars);
      && Ascending(d.vars)
      && ToMap(d.vars) == if e.value != [] then m[rid := [e]] else MapClear(m, rid)
  {
    var op := SetVariable(rid, e, Last, 1);
    assert [e][1..] == [];
    assert ElemOps(rid, 1, [e], false) == [op];
    ApplyOne(s, op);
    StepRefines(s.vars, Set(rid, e, Last, 1));
  }
}
