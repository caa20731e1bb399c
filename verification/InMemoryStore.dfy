/**
 `VCStoreInMemory`: a map from visitor id to the last hit time and the serialized rest of the
 cookie, and the life of a `VCookie` on top of it (constructor, `Store`, destructor).
 */
module InMemoryStore {
  import opened Bytes
  import opened VarIndex
  import opened Lookups
  import opened Cookies
  import opened VCookies
  import opened Wire
  import opened Codec
  import opened CodecTheorems
  import Serializer
  import Deserializer

  datatype Blob = Blob(time: Time, bytes: seq<Byte>)
  type Contents = map<Key, Blob>

  // ---- The key comparator --------------------------------------------------

  /** `VCookieId::operator <`. */
  predicate Less(a: Key, b: Key) {
    a.userid < b.userid || a.high < b.high || a.low < b.low
  }

  ghost predicate StrictlyOrders(keys: set<Key>) {
    && (forall a, b | a in keys && b in keys :: Less(a, b) ==> !Less(b, a))
    && (forall a, b | a in keys && b in keys :: a != b ==> Less(a, b) || Less(b, a))
    && forall a, b, c | a in keys && b in keys && c in keys :: Less(a, b) && Less(b, c) ==> Less(a, c)
  }

  /**
   `std::map` needs a strict order. The comparator is one exactly on key sets in which any
   two keys compare componentwise; there the map identifies keys correctly.
   */
  lemma ComparatorOrdersChainsOnly(keys: set<Key>)
    ensures StrictlyOrders(keys) <==>
      forall a, b | a in keys && b in keys ::
        || (a.userid <= b.userid && a.high <= b.high && a.low <= b.low)
        || (b.userid <= a.userid && b.high <= a.high && b.low <= a.low)
  {
    assert forall a: Key, b: Key :: !Less(a, b) <==> b.userid <= a.userid && b.high <= a.high && b.low <= a.low;
  }

  /** Two visitors of one report suite, as the store's own tests use them, are each "less" than the other. */
  lemma CrossingVisitorsAreNotOrdered()
    ensures var a, b := Key(12345, 6789, 9876), Key(12345, 6790, 9875); Less(a, b) && Less(b, a)
  {
  }

  // ---- What the operations do ----------------------------------------------

  datatype StoreOp = Save(c: Cookie) | Delete(key: Key) | DeleteOld(t: Time)

  function Step(s: Contents, op: StoreOp): Contents {
    match op
    case Save(c) => s[c.key := Blob(c.lastHit, Encode(c, false))]
    case Delete(key) => s - {key}
    case DeleteOld(t) => map k | k in s && s[k].time >= t :: s[k]
  }

  function Run(ops: seq<StoreOp>): Contents {
    if ops == [] then map[] else Step(Run(ops[..|ops| - 1]), ops[|ops| - 1])
  }

  /** `LoadVCookie` into a cookie. */
  function Load(s: Contents, c: Cookie): (bool, Cookie) {
    if c.key in s then Decode(Apply(c, LastHit(s[c.key].time)), s[c.key].bytes) else (false, c)
  }

  /** The cookie that the constructor makes. */
  function Opened(s: Contents, key: Key, newVisitor: bool): Cookie {
    var blank := Blank(key, Unmodified(newVisitor));
    if newVisitor then blank
    else
      var (ok, c) := Load(s, blank);
      c.(flags := Unmodified(!ok))
  }

  /** What the destructor leaves in the store. */
  function Closed(s: Contents, c: Cookie): Contents {
    if c.flags.modified then Step(s, Save(c)) else s
  }

  lemma OneLess(s: Contents, key: Key)
    requires key in s
    ensures |s - {key}| == |s| - 1
  {
    assert s.Keys == (s - {key}).Keys + {key};
  }

  // ---- The class -----------------------------------------------------------

  class VCStoreInMemory {
    var store: Contents

    ghost predicate Valid()
      reads this
    {
      forall k | k in store :: store[k].bytes != []
    }

    constructor ()
      ensures Valid() && store == Run([])
    {
      store := map[];
    }

    method SaveVCookie(c: VCookie) returns (ok: bool)
      requires Valid() && c.Valid()
      modifies this
      ensures Valid() && ok && store == Step(old(store), Save(c.Value()))
      ensures store == old(store)[c.key := Blob(c.lastHitTimeGMT, Encode(c.Value(), false))]
    {
      var key, t := c.key, c.lastHitTimeGMT;
      if key !in store {
        store := store[key := Blob(t, [])];
      }
      var bytes := Serializer.Serialize(c, false);
      store := store[key := store[key].(bytes := bytes)];
      store := store[key := store[key].(time := t)];
      assert store == old(store)[key := Blob(t, bytes)];
      return true;
    }

    method LoadVCookie(c: VCookie) returns (ok: bool)
      requires Valid() && c.Valid()
      modifies c
      ensures c.Valid() && (ok, c.Value()) == Load(store, old(c.Value()))
      ensures old(c.key) !in store ==> !ok && c.Value() == old(c.Value())
      ensures old(c.key) in store ==>
        var blob := store[old(c.key)];
        (ok, c.Value()) == Decode(old(c.Value()).(lastHit := blob.time, flags := Traffic(old(c.flags))), blob.bytes)
    {
      ghost var v := c.Value();
      assert forall t: Time :: Apply(v, LastHit(t)) == v.(lastHit := t, flags := Traffic(v.flags));
      hide Sorts, Listing, Decode, Apply;
      var key := c.key;
      if key !in store {
        return false;
      }
      var blob := store[key];
      c.SetLastHitTimeGMT(blob.time);
      ok := Deserializer.Deserialize(c, blob.bytes);
    }

    method DeleteVCookie(c: VCookie) returns (deleted: bool)
      requires Valid() && c.Valid()
      modifies this
      ensures Valid() && store == Step(old(store), Delete(c.Value().key)) == old(store) - {c.key}
      ensures deleted <==> c.Value().key in old(store)
    {
      deleted := c.key in store;
      store := store - {c.key};
    }

    /** Walks all entries, in any order, and erases those whose last hit is older than `t`. */
    method DeleteOldVCookies(t: Time) returns (deleted: nat)
      requires Valid()
      modifies this
      ensures Valid() && store == Step(old(store), DeleteOld(t))
      ensures store == map k | k in old(store) && old(store)[k].time >= t :: old(store)[k]
      ensures deleted == |old(store)| - |store|
    {
      deleted := 0;
      var rest := store.Keys;
      while rest != {}
        invariant rest <= store.Keys && deleted + |store| == |old(store)|
        invariant store == map k | k in old(store) && (k in rest || old(store)[k].time >= t) :: old(store)[k]
        decreases |rest|
      {
        var k :| k in rest;
        if store[k].time < t {
          OneLess(store, k);
          store := store - {k};
          deleted := deleted + 1;
        }
        rest := rest - {k};
      }
    }

    method GetVCookieCount() returns (n: nat)
      ensures n == |store|
    {
      n := |store|;
    }

    /** The constructor of `VCookie`, which loads the cookie unless the visitor is known to be new. */
    method Open(user: UInt32, high: UInt64, low: UInt64, newVisitor: bool) returns (c: VCookie)
      requires Valid()
      ensures fresh(c) && c.Valid() && c.Value() == Opened(store, Key(user, high, low), newVisitor)
    {
      hide Sorts, Listing, Load;
      c := new VCookie(user, high, low, newVisitor);
      if !newVisitor {
        var loaded := LoadVCookie(c);
        c.flags := c.flags.(newCookie := !loaded);
      }
      c.ClearModified();
    }

    /** `VCookie::Store`. It resets the marks of the cookie, not those of its variables. */
    method Store(c: VCookie) returns (ok: bool)
      requires Valid() && c.Valid()
      modifies this, c
      ensures Valid() && ok && store == Step(old(store), Save(old(c.Value())))
      ensures c.Valid() && c.Value() == old(c.Value()).(flags := Unmodified(old(c.flags.newCookie)))
      ensures ModifiedFrom(c.relVar, c.relVarSort, 0) == INVALID_RID
         <==> forall r: RelationId | r < INVALID_RID :: r !in ToMap(old(c.Value().vars))
    {
      hide Sorts, Listing, Step;
      ok := SaveVCookie(c);
      c.ClearModified();
      AllMarked(c.relVar, c.relVarSort, 0);
      FirstIndexedIff(c.Value().vars);
    }

    /** The destructor of `VCookie`. */
    method Close(c: VCookie)
      requires Valid() && c.Valid()
      modifies this, c
      ensures Valid() && store == Closed(old(store), old(c.Value()))
    {
      hide Sorts, Listing, Step;
      if c.flags.modified {
        var _ := Store(c);
      }
    }
  }

  // ---- Every run of the store ----------------------------------------------

  /** The reference: the cookie last saved under a key and neither deleted nor expired since. */
  function LastSaved(ops: seq<StoreOp>, key: Key): Option<Cookie> {
    if ops == [] then None
    else
      var before := LastSaved(ops[..|ops| - 1], key);
      match ops[|ops| - 1]
      case Save(c) => if c.key == key then Some(c) else before
      case Delete(k) => if k == key then None else before
      case DeleteOld(t) => if before.Some? && before.value.lastHit < t then None else before
  }

  /**
   The same as a statement about the run: saved once, and since then neither saved again nor
   deleted, and no limit of an expiry was above its last hit.
   */
  lemma {:induction false} LastSavedIff(ops: seq<StoreOp>, key: Key, c: Cookie)
    ensures LastSaved(ops, key) == Some(c)
       <==> exists i :: 0 <= i < |ops| && ops[i] == Save(c) && c.key == key
              && forall j | i < j < |ops| :: match ops[j]
                                             case Save(d) => d.key != key
                                             case Delete(k) => k != key
                                             case DeleteOld(t) => c.lastHit >= t
  {
    SavedOnce(ops, key, c);
    if i :| SavedAt(ops, key, c, i) {
      assert forall j | i < j < |ops| :: Keeps(ops[j], key, c);
    }
    if i :| 0 <= i < |ops| && ops[i] == Save(c) && c.key == key
              && forall j | i < j < |ops| :: match ops[j]
                                             case Save(d) => d.key != key
                                             case Delete(k) => k != key
                                             case DeleteOld(t) => c.lastHit >= t {
      assert SavedAt(ops, key, c, i);
    }
  }

  ghost predicate Keeps(op: StoreOp, key: Key, c: Cookie) {
    match op
    case Save(d) => d.key != key
    case Delete(k) => k != key
    case DeleteOld(t) => c.lastHit >= t
  }

  ghost predicate SavedAt(ops: seq<StoreOp>, key: Key, c: Cookie, i: int) {
    0 <= i < |ops| && ops[i] == Save(c) && c.key == key && forall j | i < j < |ops| :: Keeps(ops[j], key, c)
  }

  lemma {:induction false} SavedOnce(ops: seq<StoreOp>, key: Key, c: Cookie)
    ensures LastSaved(ops, key) == Some(c) <==> exists i :: SavedAt(ops, key, c, i)
  {
    if ops != [] {
      var n := |ops| - 1;
      SavedOnce(ops[..n], key, c);
      LastSavedStep(ops, key, c);
      hide LastSaved, Keeps;
      assert forall i | 0 <= i < n ::
          SavedAt(ops, key, c, i) <==> SavedAt(ops[..n], key, c, i) && Keeps(ops[n], key, c);
      assert SavedAt(ops, key, c, n) <==> ops[n] == Save(c) && c.key == key;
    }
  }

  lemma LastSavedStep(ops: seq<StoreOp>, key: Key, c: Cookie)
    requires ops != []
    ensures var n := |ops| - 1;
      LastSaved(ops, key) == Some(c)
      <==> (ops[n] == Save(c) && c.key == key) || (LastSaved(ops[..n], key) == Some(c) && Keeps(ops[n], key, c))
  {
  }

  lemma {:induction false} StoreHoldsLastSaved(ops: seq<StoreOp>, key: Key)
    ensures match LastSaved(ops, key)
      case None => key !in Run(ops)
      case Some(c) => c.key == key && key in Run(ops) && Run(ops)[key] == Blob(c.lastHit, Encode(c, false))
  {
    if ops != [] {
      StoreHoldsLastSaved(ops[..|ops| - 1], key);
    }
  }

  /** Flags never influence anything else. */
  lemma {:induction false} FlagsAreIdle(a: Cookie, b: Cookie, ops: seq<CookieOp>)
    requires Plain(a) == Plain(b)
    ensures Plain(ApplyAll(a, ops)) == Plain(ApplyAll(b, ops))
    decreases |ops|
  {
    if ops != [] {
      FlagsAreIdleOnce(a, b, ops[0]);
      FlagsAreIdle(Apply(a, ops[0]), Apply(b, ops[0]), ops[1..]);
    }
  }

  lemma FlagsAreIdleOnce(a: Cookie, b: Cookie, op: CookieOp)
    requires Plain(a) == Plain(b)
    ensures Plain(Apply(a, op)) == Plain(Apply(b, op))
  {
    assert a == b.(flags := a.flags) by {
      assert a == Plain(a).(flags := a.flags);
    }
  }

  lemma EnumerationIgnoresFlags(a: Cookie, b: Cookie)
    requires Plain(a) == Plain(b)
    ensures Enumerated(a) == Enumerated(b)
  {
    assert Enumerated(a) == Enumerated(Plain(a)) && Enumerated(b) == Enumerated(Plain(b));
  }

  lemma GettersIgnoreFlags(a: Cookie, b: Cookie, c: Cookie)
    requires Plain(a) == Plain(b)
    ensures (LookAlike(a, c) <==> LookAlike(b, c)) && (SameGetters(a, c) <==> SameGetters(b, c))
  {
    EnumerationIgnoresFlags(a, b);
    assert a.vars == Plain(a).vars == b.vars;
  }

  /** Loading what was saved is the round trip without the last hit time. */
  lemma LoadingIsRoundTrip(s: Contents, c: Cookie)
    requires c.key in s && s[c.key] == Blob(c.lastHit, Encode(c, false))
    ensures var (ok, d) := Load(s, Blank(c.key, Unmodified(false)));
      && ((ok && Enumerated(d) == Enumerated(c)) <==> EnumerationReturns(c, false))
      && ((ok && LookAlike(d, c)) <==> LooksReturn(c, false))
      && ((ok && SameGetters(d, c)) <==> GettersReturn(c, false))
  {
    var blank, buf := Blank(c.key, Unmodified(false)), Encode(c, false);
    var s1 := Apply(blank, LastHit(c.lastHit));
    FlagsAreIdle(s1, Fresh(c, false), MessageOps(Parse(buf)));
    EnumerationIgnoresFlags(Decode(s1, buf).1, Decode(Fresh(c, false), buf).1);
    GettersIgnoreFlags(Decode(s1, buf).1, Decode(Fresh(c, false), buf).1, c);
  }

  /** Whether an opened cookie was loaded and shows the same as `c`: to enumeration, to lookups, to all getters. */
  ghost predicate EnumerationBack(again: Cookie, c: Cookie) {
    !again.flags.newCookie && Enumerated(again) == Enumerated(c)
  }

  ghost predicate LooksBack(again: Cookie, c: Cookie) { !again.flags.newCookie && LookAlike(again, c) }

  ghost predicate GettersBack(again: Cookie, c: Cookie) { !again.flags.newCookie && SameGetters(again, c) }

  /** Opening a cookie that the store holds. */
  lemma OpeningSaved(s: Contents, c: Cookie)
    requires WellFormed(c) && c.key in s && s[c.key] == Blob(c.lastHit, Encode(c, false))
    ensures var again := Opened(s, c.key, false);
      && (EnumerationBack(again, c) <==> Codable(c, false))
      && (LooksBack(again, c) <==> Codable(c, false) && Settled(c.vars))
      && (GettersBack(again, c) <==> Codable(c, false) && AllSet(c.vars))
  {
    hide Load, Enumerated, LookAlike, SameGetters, Codable, Settled, AllSet;
    hide EnumerationReturns, LooksReturn, GettersReturn;
    var (ok, d) := Load(s, Blank(c.key, Unmodified(false)));
    LoadingIsRoundTrip(s, c);
    EnumerationReturnsIff(c, false);
    LooksReturnIff(c, false);
    RoundTripIff(c, false);
    EnumerationIgnoresFlags(Opened(s, c.key, false), d);
    GettersIgnoreFlags(Opened(s, c.key, false), d, c);
  }

  /**
   Over every run, opening a cookie gives back what was last saved under its key and not
   removed since: the same to enumeration exactly when that cookie is codable, to lookups
   exactly when it is settled, too, and to all getters exactly when its variables are all set.
   With nothing saved it gives a new, blank cookie.
   */
  lemma OpeningReturnsLastSaved(ops: seq<StoreOp>, key: Key)
    requires forall op | op in ops && op.Save? :: WellFormed(op.c)
    ensures var again := Opened(Run(ops), key, false);
      match LastSaved(ops, key)
      case None => again == Blank(key, Unmodified(true))
      case Some(c) =>
        && (EnumerationBack(again, c) <==> Codable(c, false))
        && (LooksBack(again, c) <==> Codable(c, false) && Settled(c.vars))
        && (GettersBack(again, c) <==> Codable(c, false) && AllSet(c.vars))
  {
    StoreHoldsLastSaved(ops, key);
    match LastSaved(ops, key)
    case None =>
    case Some(c) =>
      LastSavedWasSaved(ops, key);
      OpeningSaved(Run(ops), c);
  }

  lemma {:induction false} LastSavedWasSaved(ops: seq<StoreOp>, key: Key)
    requires LastSaved(ops, key).Some?
    ensures Save(LastSaved(ops, key).value) in ops
  {
    if ops != [] {
      var before := ops[..|ops| - 1];
      if LastSaved(before, key).Some? { LastSavedWasSaved(before, key); }
    }
  }

  /**
   Expiry over every run: a cookie that comes back otherwise still does exactly when its last
   hit is not before the limit; an expired one opens as a new, blank cookie.
   */
  lemma {:induction false} ExpiryKeepsTheRecent(ops: seq<StoreOp>, t: Time, key: Key)
    requires forall op | op in ops && op.Save? :: WellFormed(op.c)
    requires LastSaved(ops, key).Some?
    ensures var c := LastSaved(ops, key).value; var again := Opened(Run(ops + [DeleteOld(t)]), key, false);
      && (EnumerationBack(again, c) <==> c.lastHit >= t && Codable(c, false))
      && (LooksBack(again, c) <==> c.lastHit >= t && Codable(c, false) && Settled(c.vars))
      && (GettersBack(again, c) <==> c.lastHit >= t && Codable(c, false) && AllSet(c.vars))
      && (c.lastHit < t ==> again == Blank(key, Unmodified(true)))
  {
    var c, later := LastSaved(ops, key).value, ops + [DeleteOld(t)];
    assert later[..|later| - 1] == ops;
    LastSavedWasSaved(ops, key);
    StoreHoldsLastSaved(ops, key);
    OpeningReturnsLastSaved(later, key);
  }

  /**
   A visitor known to be new gets a cookie of its identity with nothing in it, new and without
   a mark, whatever the store holds.
   */
  lemma NewVisitorStartsBlank(s: Contents, user: UInt32, high: UInt64, low: UInt64)
    ensures Opened(s, Key(user, high, low), true)
         == Cookie(Key(user, high, low), 0, 0, 0, 0, 0, [], [], [], 0, [], [], [],
                   Flags(true, false, false, false, false, false))
  {
  }

  // ---- A session: open, change, close, open again --------------------------

  /**
   A session opens a cookie, changes it by any run of operations and closes it. If some
   operation marked the cookie, it comes back as a saved one does. Otherwise the next session
   opens what this one had opened, so that the getters agree only if the run changed nothing.
   */
  lemma {:induction false} ChangeSurvivesSessionIff(s: Contents, key: Key, ops: seq<CookieOp>)
    ensures var c := Opened(s, key, false); var changed := ApplyAll(c, ops);
      var again := Opened(Closed(s, changed), key, false);
      if RunMarks(c, ops) then
        && (EnumerationBack(again, changed) <==> Codable(changed, false))
        && (LooksBack(again, changed) <==> Codable(changed, false) && Settled(changed.vars))
        && (GettersBack(again, changed) <==> Codable(changed, false) && AllSet(changed.vars))
      else
        again == c && (SameGetters(again, changed) <==> changed == c)
  {
    hide Load, RunMarks, Codable, Settled, AllSet, WellFormed, ApplyAll, Encode;
    hide EnumerationBack, LooksBack, GettersBack, SameGetters;
    var c := Opened(s, key, false);
    var changed := ApplyAll(c, ops);
    OpenedKey(s, key);
    RunKeepsWellFormed(c, ops);
    RunMarksIff(c, ops);
    if RunMarks(c, ops) {
      OpeningSaved(Step(s, Save(changed)), changed);
    } else {
      UnmarkedRunIff(c, ops);
      SameGettersBothWays(c, changed);
    }
  }

  /**
   The session of a visitor taken for new: a marked change replaces whatever the store held
   under the key and comes back as a saved cookie does; without a mark nothing has changed, in
   the cookie or in the store.
   */
  lemma NewVisitorSession(s: Contents, key: Key, ops: seq<CookieOp>)
    ensures var c := Opened(s, key, true); var changed := ApplyAll(c, ops);
      var s' := Closed(s, changed); var again := Opened(s', key, false);
      if RunMarks(c, ops) then
        && s' == s[key := Blob(changed.lastHit, Encode(changed, false))]
        && (EnumerationBack(again, changed) <==> Codable(changed, false))
        && (LooksBack(again, changed) <==> Codable(changed, false) && Settled(changed.vars))
        && (GettersBack(again, changed) <==> Codable(changed, false) && AllSet(changed.vars))
      else
        changed == c && s' == s
  {
    hide Load, RunMarks, Codable, Settled, AllSet, ApplyAll, Encode, EnumerationBack, LooksBack, GettersBack;
    var c := Opened(s, key, true);
    var changed := ApplyAll(c, ops);
    RunKeepsWellFormed(c, ops);
    RunMarksIff(c, ops);
    if RunMarks(c, ops) {
      OpeningSaved(Step(s, Save(changed)), changed);
    } else {
      NothingFromBlank(c, ops);
    }
  }

  lemma {:induction false} NothingFromBlank(c: Cookie, ops: seq<CookieOp>)
    requires c.purchaseIds == [] && c.vars == [] && !RunMarks(c, ops)
    ensures ApplyAll(c, ops) == c
    decreases |ops|
  {
    if ops != [] {
      assert Apply(c, ops[0]) == c;
      NothingFromBlank(c, ops[1..]);
    }
  }

  lemma SameGettersBothWays(a: Cookie, b: Cookie)
    ensures SameGetters(a, b) <==> SameGetters(b, a)
  {
  }

  lemma OpenedKey(s: Contents, key: Key)
    ensures Opened(s, key, false).key == key && WellFormed(Opened(s, key, false))
  {
    var blank := Blank(key, Unmodified(false));
    if key in s {
      DecodeKeepsInvariants(Apply(blank, LastHit(s[key].time)), s[key].bytes);
    }
  }
}
