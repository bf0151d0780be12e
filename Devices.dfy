/**
 * The connected-device records and the pure computations the socket handlers
 * perform over the registry: the key order a JavaScript `Map` keeps under
 * `set` and `delete`, and the filter-then-map that turns the registry into the
 * list of socket ids sharing one public address.
 */
module Devices {

  /** A registration payload, stored as is. A field the client left out is
      represented by the empty string: the registration guard rejects both alike. */
  datatype Device = Device(socketId: string, deviceName: string, publicIPAdress: string)

  /** The registration guard: socket id, device name and public address all present. */
  predicate IsValidRegistration(d: Device) {
    d.socketId != "" && d.deviceName != "" && d.publicIPAdress != ""
  }

  ghost predicate Distinct<T>(s: seq<T>) {
    forall i, j :: 0 <= i < j < |s| ==> s[i] != s[j]
  }

  /** Every key listed in `order` is stored in `m`, under its own socket id. */
  ghost predicate Keyed(order: seq<string>, m: map<string, Device>) {
    forall k :: k in order ==> k in m && m[k].socketId == k
  }

  /** The registry invariant: `order` lists each key of `m` exactly once (in
      insertion order) and every record is stored under its own socket id. */
  ghost predicate WellFormed(order: seq<string>, m: map<string, Device>) {
    && Distinct(order)
    && (forall k :: k in m ==> k in order)
    && Keyed(order, m)
  }

  /** Key order after `Map.set(k, _)`: an existing key keeps its place, a new one goes last. */
  function Placed(order: seq<string>, k: string): (r: seq<string>)
    ensures forall x :: x in r <==> x in order || x == k
    ensures |order| <= |r| && r[..|order|] == order
    ensures Distinct(order) ==> Distinct(r)
  {
    if k in order then order else order + [k]
  }

  /** Key order after `Map.delete(k)`: `k` drops out, the other keys keep their
      relative order (`RemoveAt`). */
  function Remove(order: seq<string>, k: string): (r: seq<string>)
    ensures forall x :: x in r <==> x in order && x != k
    ensures |r| <= |order|
  {
    if order == [] then []
    else if order[0] == k then Remove(order[1..], k)
    else [order[0]] + Remove(order[1..], k)
  }

  lemma {:induction false} RemoveDistinct(order: seq<string>, k: string)
    requires Distinct(order)
    ensures Distinct(Remove(order, k))
    ensures k in order ==> |Remove(order, k)| == |order| - 1
    ensures k !in order ==> Remove(order, k) == order
  {
    if order != [] {
      DistinctTail(order);
      RemoveDistinct(order[1..], k);
      if order[0] == k {
        assert k !in order[1..];
      } else {
        var r := [order[0]] + Remove(order[1..], k);
        forall i, j | 0 <= i < j < |r| ensures r[i] != r[j] {
          if i == 0 {
            assert r[j] in Remove(order[1..], k);
          } else {
            assert r[i] == Remove(order[1..], k)[i - 1] && r[j] == Remove(order[1..], k)[j - 1];
          }
        }
        assert order == [order[0]] + order[1..];
      }
    }
  }

  lemma DistinctTail(s: seq<string>)
    requires Distinct(s) && |s| > 0
    ensures Distinct(s[1..]) && s[0] !in s[1..]
  {
  }

  lemma DistinctAround(s: seq<string>, i: nat)
    requires Distinct(s) && i < |s|
    ensures s[i] !in s[..i] && s[i] !in s[i + 1..]
  {
  }


  /** Deleting the key at position `i` of a duplicate-free key order leaves the
      keys before and after it, in their order. */
  lemma {:induction false} RemoveAt(order: seq<string>, k: string, i: nat)
    requires Distinct(order) && i < |order| && order[i] == k
    ensures Remove(order, k) == order[..i] + order[i + 1..]
  {
    var t := order[1..];
    DistinctTail(order);
    if i == 0 {
      RemoveDistinct(t, k);
    } else {
      assert order[0] != k;
      RemoveAt(t, k, i - 1);
      assert order[..i] == [order[0]] + t[..i - 1];
      assert order[i + 1..] == t[i..];
    }
  }

  /** The position of key `k` in the key order. */
  function IndexOf(order: seq<string>, k: string): (i: nat)
    requires k in order
    ensures i < |order| && order[i] == k && k !in order[..i]
  {
    if order[0] == k then 0 else 1 + IndexOf(order[1..], k)
  }

  /** The socket ids of the records, taken in key order, whose public address is
      `addr`: `Array.from(values()).filter(...).map(d => d.socketId)`. */
  function LocalIds(order: seq<string>, m: map<string, Device>, addr: string): (r: seq<string>)
    requires forall k :: k in order ==> k in m
    ensures |r| <= |order|
  {
    if order == [] then []
    else
      var rest := LocalIds(order[1..], m, addr);
      if m[order[0]].publicIPAdress == addr then [m[order[0]].socketId] + rest else rest
  }

  /** Over keys stored under their own socket id, the reply lists exactly the
      keys whose record has public address `addr`. */
  lemma {:induction false} LocalIdsMembership(order: seq<string>, m: map<string, Device>, addr: string)
    requires Keyed(order, m)
    ensures forall x :: x in LocalIds(order, m, addr) <==> x in order && m[x].publicIPAdress == addr
  {
    if order != [] {
      LocalIdsMembership(order[1..], m, addr);
      assert order == [order[0]] + order[1..];
    }
  }

  /** The reply never names a device twice. */
  lemma {:induction false} LocalIdsDistinct(order: seq<string>, m: map<string, Device>, addr: string)
    requires Distinct(order) && Keyed(order, m)
    ensures Distinct(LocalIds(order, m, addr))
  {
    if order != [] {
      var t := order[1..];
      DistinctTail(order);
      LocalIdsDistinct(t, m, addr);
      LocalIdsMembership(t, m, addr);
      var rest := LocalIds(t, m, addr);
      if m[order[0]].publicIPAdress == addr {
        var r := [order[0]] + rest;
        forall i, j | 0 <= i < j < |r| ensures r[i] != r[j] {
          if i == 0 {
            assert r[j] in rest;
          } else {
            assert r[i] == rest[i - 1] && r[j] == rest[j - 1];
          }
        }
      }
    }
  }

  /** Deleting key `k` removes exactly `k` from every address's reply and leaves
      the rest of each reply, order included, as it was. */
  lemma {:induction false} LocalIdsAfterRemove(order: seq<string>, m: map<string, Device>, addr: string, k: string)
    requires Keyed(order, m)
    ensures Keyed(Remove(order, k), m - {k})
    ensures LocalIds(Remove(order, k), m - {k}, addr) == Remove(LocalIds(order, m, addr), k)
  {
    if order != [] {
      var h, t := order[0], order[1..];
      LocalIdsAfterRemove(t, m, addr, k);
      var rest := LocalIds(t, m, addr);
      if h == k {
        if m[h].publicIPAdress == addr {
          assert LocalIds(order, m, addr) == [k] + rest;
          assert ([k] + rest)[1..] == rest;
        }
      } else {
        assert Remove(order, k) == [h] + Remove(t, k);
        assert ([h] + Remove(t, k))[1..] == Remove(t, k);
        if m[h].publicIPAdress == addr {
          assert ([h] + rest)[1..] == rest;
        }
      }
    }
  }

  /** Inserting a new key last appends its socket id to the reply of its own
      address and to no other reply. */
  lemma {:induction false} LocalIdsAfterAppend(order: seq<string>, m: map<string, Device>, m': map<string, Device>, k: string, addr: string)
    requires forall j :: j in order ==> j in m && j in m' && m'[j] == m[j]
    requires k in m'
    ensures LocalIds(order + [k], m', addr)
         == LocalIds(order, m, addr) + (if m'[k].publicIPAdress == addr then [m'[k].socketId] else [])
  {
    if order == [] {
      assert [] + [k] == [k];
    } else {
      assert (order + [k])[1..] == order[1..] + [k];
      LocalIdsAfterAppend(order[1..], m, m', k, addr);
    }
  }

  /** Replacing the record under `k` leaves the reply for any address that is
      neither the old nor the new record's address unchanged. */
  lemma {:induction false} LocalIdsUnaffected(order: seq<string>, m: map<string, Device>, k: string, d: Device, addr: string)
    requires forall j :: j in order ==> j in m
    requires k in m && m[k].publicIPAdress != addr && d.publicIPAdress != addr
    ensures LocalIds(order, m[k := d], addr) == LocalIds(order, m, addr)
  {
    if order != [] {
      LocalIdsUnaffected(order[1..], m, k, d, addr);
    }
  }

  /** The reply over two consecutive stretches of keys is the two replies joined. */
  lemma {:induction false} LocalIdsConcat(a: seq<string>, b: seq<string>, m: map<string, Device>, addr: string)
    requires forall k :: k in a + b ==> k in m
    ensures LocalIds(a + b, m, addr) == LocalIds(a, m, addr) + LocalIds(b, m, addr)
  {
    if a != [] {
      assert (a + b)[1..] == a[1..] + b;
      LocalIdsConcat(a[1..], b, m, addr);
    } else {
      assert a + b == b;
    }
  }

  /** The reply depends only on the records of the listed keys. */
  lemma {:induction false} LocalIdsFrame(order: seq<string>, m: map<string, Device>, m': map<string, Device>, addr: string)
    requires forall j :: j in order ==> j in m && j in m' && m'[j] == m[j]
    ensures LocalIds(order, m', addr) == LocalIds(order, m, addr)
  {
    if order != [] {
      LocalIdsFrame(order[1..], m, m', addr);
    }
  }

  /** Overwriting the record of key `k`, found at position `i`, puts the new
      record's id (when its address is `addr`) at that same position of the
      reply: an overwrite keeps the key's place in the `Map` order. */
  lemma {:induction false} LocalIdsAfterOverwrite(order: seq<string>, m: map<string, Device>, k: string, d: Device, addr: string, i: nat)
    requires forall j :: j in order ==> j in m
    requires Distinct(order) && i < |order| && order[i] == k
    ensures LocalIds(order, m[k := d], addr)
         == LocalIds(order[..i], m, addr)
          + (if d.publicIPAdress == addr then [d.socketId] else [])
          + LocalIds(order[i + 1..], m, addr)
  {
    var m' := m[k := d];
    var pre, post := order[..i], order[i + 1..];
    assert order == pre + ([k] + post);
    DistinctAround(order, i);
    LocalIdsConcat(pre, [k] + post, m', addr);
    LocalIdsConcat([k], post, m', addr);
    LocalIdsFrame(pre, m, m', addr);
    LocalIdsFrame(post, m, m', addr);
    assert LocalIds([k], m', addr) == (if d.publicIPAdress == addr then [d.socketId] else []);
  }
}
