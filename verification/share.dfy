/** The share ledger (`ShareService`): a JSON array of share records that
    the service reads, changes and writes back whole. Here the array is a
    sequence of immutable records, the clock is the parameter `now`, and the
    random UUID of a new share is the parameter `id`.
 */
module ShareLedger {
  import opened Wrappers
  import TrashLedger

  datatype Share = Share(id: string, path: string, name: string, createdAt: int, expireAt: int)

  type Store = seq<Share>

  /** A store after a change, and whether it was written back. */
  datatype Update = Update(store: Store, written: bool)

  /** A share has expired once its expiry time is set (positive) and lies
      strictly before `now`: a share is still visible at its expiry time,
      and an expiry of 0 means never. */
  predicate Expired(e: Share, now: int)
  {
    e.expireAt > 0 && e.expireAt < now
  }

  predicate HasId(s: Store, id: string)
  {
    exists i :: 0 <= i < |s| && s[i].id == id
  }

  // ---------------------------------------------------------------------
  // add

  /** `add`: one new record at the end, created now; the store is written. */
  function Add(s: Store, id: string, path: string, name: string, expireAt: int, now: int): (r: (Update, Share))
    ensures r.1 == Share(id, path, name, now, expireAt)
    ensures r.0.written && |r.0.store| == |s| + 1
    ensures r.0.store[..|s|] == s && r.0.store[|s|] == r.1
  {
    var e := Share(id, path, name, now, expireAt);
    assert (s + [e])[..|s|] == s;
    (Update(s + [e], true), e)
  }

  // ---------------------------------------------------------------------
  // list

  /** The shares that have not expired, in store order. */
  function Visible(s: Store, now: int): (r: Store)
    ensures |r| <= |s|
  {
    if s == [] then []
    else (if Expired(s[0], now) then [] else [s[0]]) + Visible(s[1..], now)
  }

  /** The listed shares are exactly the stored ones that have not expired. */
  lemma {:induction false} VisibleMembers(s: Store, now: int, e: Share)
    ensures e in Visible(s, now) <==> e in s && !Expired(e, now)
    decreases |s|
  {
    if s != [] {
      VisibleMembers(s[1..], now, e);
      assert s == [s[0]] + s[1..];
    }
  }

  /** `list`: the loop over the store that skips expired shares. */
  method List(s: Store, now: int) returns (out: Store)
    ensures out == Visible(s, now)
  {
    out := [];
    var i := 0;
    while i < |s|
      invariant 0 <= i <= |s|
      invariant out == Visible(s[..i], now)
    {
      var e := s[i];
      assert s[..i + 1] == s[..i] + [e];
      VisibleAppend(s[..i], [e], now);
      if !Expired(e, now) {
        out := out + [e];
      }
      i := i + 1;
    }
    assert s[..i] == s;
  }

  /** Listing does not depend on where the store is cut. */
  lemma {:induction false} VisibleAppend(a: Store, b: Store, now: int)
    ensures Visible(a + b, now) == Visible(a, now) + Visible(b, now)
    decreases |a|
  {
    if a == [] {
      assert a + b == b;
    } else {
      assert (a + b)[1..] == a[1..] + b;
      VisibleAppend(a[1..], b, now);
    }
  }

  /** Listing a listing changes nothing. */
  lemma {:induction false} VisibleIdempotent(s: Store, now: int)
    ensures Visible(Visible(s, now), now) == Visible(s, now)
    decreases |s|
  {
    if s != [] {
      var head := if Expired(s[0], now) then [] else [s[0]];
      VisibleAppend(head, Visible(s[1..], now), now);
      VisibleIdempotent(s[1..], now);
    }
  }

  /** A later clock only hides more shares. */
  lemma VisibleShrinks(s: Store, now: int, later: int, e: Share)
    requires now <= later && e in Visible(s, later)
    ensures e in Visible(s, now)
  {
    VisibleMembers(s, later, e);
    VisibleMembers(s, now, e);
  }

  /** A share added now is listed after the earlier shares exactly when it
      has not expired. */
  lemma AddThenList(s: Store, id: string, path: string, name: string, expireAt: int, now: int, at: int)
    ensures var (u, e) := Add(s, id, path, name, expireAt, now);
            Visible(u.store, at) == Visible(s, at) + (if Expired(e, at) then [] else [e])
  {
    var e := Share(id, path, name, now, expireAt);
    VisibleAppend(s, [e], at);
  }

  // ---------------------------------------------------------------------
  // getById

  /** The first share with this id, expired or not. */
  function FirstWithId(s: Store, id: string): (r: Option<Share>)
    ensures r.None? <==> !HasId(s, id)
    ensures r.Some? ==> exists i :: 0 <= i < |s| && s[i] == r.value && r.value.id == id
                                   && forall j :: 0 <= j < i ==> s[j].id != id
  {
    if s == [] then None
    else if s[0].id == id then Some(s[0])
    else
      var r := FirstWithId(s[1..], id);
      assert HasId(s[1..], id) ==> HasId(s, id) by {
        if HasId(s[1..], id) {
          var i :| 0 <= i < |s[1..]| && s[1..][i].id == id;
          assert s[i + 1].id == id;
        }
      }
      assert HasId(s, id) ==> HasId(s[1..], id) by {
        if HasId(s, id) {
          var i :| 0 <= i < |s| && s[i].id == id;
          assert i > 0 && s[1..][i - 1].id == id;
        }
      }
      if r.Some? then
        var i :| 0 <= i < |s[1..]| && s[1..][i] == r.value && r.value.id == id
                 && forall j :: 0 <= j < i ==> s[1..][j].id != id;
        assert s[i + 1] == r.value;
        assert forall j :: 0 <= j < i + 1 ==> s[j].id != id by {
          forall j | 0 <= j < i + 1 ensures s[j].id != id {
            if j > 0 { assert s[j] == s[1..][j - 1]; }
          }
        }
        r
      else r
  }

  /** `getById`: the first share with the id, unless that one has expired;
      a later share with the same id is never consulted. */
  function GetById(s: Store, id: string, now: int): (r: Option<Share>)
    ensures r.Some? ==> r.value.id == id && r.value in s && !Expired(r.value, now)
    // the share found is the first one with the id
    ensures r.Some? ==> r == FirstWithId(s, id)
    ensures !HasId(s, id) ==> r.None?
    ensures HasId(s, id) && r.None? ==> Expired(FirstWithId(s, id).value, now)
  {
    var first := FirstWithId(s, id);
    if first.None? || Expired(first.value, now) then None else first
  }

  /** A share added under a fresh id is found by that id until it expires. */
  lemma AddThenGet(s: Store, id: string, path: string, name: string, expireAt: int, now: int, at: int)
    requires !HasId(s, id)
    ensures var (u, e) := Add(s, id, path, name, expireAt, now);
            GetById(u.store, id, at) == if Expired(e, at) then None else Some(e)
  {
    var e := Share(id, path, name, now, expireAt);
    FirstAfter(s, [e], id);
    assert FirstWithId([e], id) == Some(e);
  }

  /** Past a prefix without the id, the first match is the first in the rest. */
  lemma {:induction false} FirstAfter(a: Store, b: Store, id: string)
    requires !HasId(a, id)
    ensures FirstWithId(a + b, id) == FirstWithId(b, id)
    decreases |a|
  {
    if a == [] {
      assert a + b == b;
    } else {
      assert a[0].id != id;
      assert (a + b)[1..] == a[1..] + b;
      forall i | 0 <= i < |a[1..]|
        ensures a[1..][i].id != id
      {
        assert a[1..][i] == a[i + 1];
      }
      FirstAfter(a[1..], b, id);
    }
  }

  /** `getById` agrees with `list`: a found share is a listed one. */
  lemma GetIsListed(s: Store, id: string, now: int)
    requires GetById(s, id, now).Some?
    ensures GetById(s, id, now).value in Visible(s, now)
  {
    VisibleMembers(s, now, GetById(s, id, now).value);
  }

  // ---------------------------------------------------------------------
  // remove

  /** Every share whose id differs, in order. */
  function WithoutId(s: Store, id: string): (r: Store)
    ensures |r| <= |s|
    ensures forall e :: e in r <==> e in s && e.id != id
    ensures !HasId(s, id) ==> r == s
    ensures HasId(s, id) ==> |r| < |s|
  {
    if s == [] then []
    else
      var rest := WithoutId(s[1..], id);
      assert HasId(s[1..], id) ==> HasId(s, id) by {
        if HasId(s[1..], id) {
          var i :| 0 <= i < |s[1..]| && s[1..][i].id == id;
          assert s[i + 1].id == id;
        }
      }
      assert !HasId(s, id) ==> s == [s[0]] + s[1..];
      if s[0].id == id then rest else [s[0]] + rest
  }

  /** `remove`: every share with the id goes; the store is written back
      only when one did, and the result says whether one did. */
  function Remove(s: Store, id: string): (r: (Update, bool))
    ensures r.1 <==> HasId(s, id)
    ensures r.0.written == r.1
    ensures !r.1 ==> r.0.store == s
    ensures forall e :: e in r.0.store <==> e in s && e.id != id
  {
    var removed := HasId(s, id);
    (Update(WithoutId(s, id), removed), removed)
  }

  /** After a removal the id is gone for good, and removing again does nothing. */
  lemma RemoveThenGet(s: Store, id: string, now: int)
    ensures GetById(Remove(s, id).0.store, id, now).None?
    ensures Remove(Remove(s, id).0.store, id).1 == false
  {
    var t := Remove(s, id).0.store;
    forall i | 0 <= i < |t|
      ensures t[i].id != id
    {
      assert t[i] in t;
    }
  }

  /** Removing the id of a share just added takes the store back. */
  lemma RemoveUndoesAdd(s: Store, id: string, path: string, name: string, expireAt: int, now: int)
    requires !HasId(s, id)
    ensures Remove(Add(s, id, path, name, expireAt, now).0.store, id) == (Update(s, true), true)
  {
    var e := Share(id, path, name, now, expireAt);
    WithoutIdAppend(s, [e], id);
    assert WithoutId([e], id) == [];
    assert s + [] == s;
    assert (s + [e])[|s|].id == id;
    assert HasId(s + [e], id);
  }

  lemma {:induction false} WithoutIdAppend(a: Store, b: Store, id: string)
    ensures WithoutId(a + b, id) == WithoutId(a, id) + WithoutId(b, id)
    decreases |a|
  {
    if a == [] {
      assert a + b == b;
    } else {
      assert (a + b)[1..] == a[1..] + b;
      WithoutIdAppend(a[1..], b, id);
    }
  }

  // ---------------------------------------------------------------------
  // The two expiry rules side by side

  /** At the very instant a share and a trash entry are due, the share is
      still visible (strict `<`) while the trash entry is already purged
      (`<=`). */
  lemma ExpiryBoundaryDiffers(e: Share, t: TrashLedger.Entry, retention: int)
    requires e.expireAt > 0 && t.expireAt == e.expireAt
    ensures !Expired(e, e.expireAt)
    ensures TrashLedger.Expired(t, retention, e.expireAt)
  {
  }

  /** A share without an expiry time never expires. */
  lemma NeverExpires(e: Share, now: int)
    requires e.expireAt == 0
    ensures !Expired(e, now)
  {
  }
}
