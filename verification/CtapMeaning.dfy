/** What the readers of CTAP2 requests mean, position by position (`src/linux_uhid.rs`). */
module CtapMeaning {
  import opened Bytes
  import opened CtapRequests

  type CborMap = seq<(Value, Value)>

  // ---- Finding an entry ----------------------------------------------------------------------------

  predicate Keyed(entries: CborMap, key: Value) { exists i :: 0 <= i < |entries| && entries[i].0 == key }

  /** `v` is filed under `key` at position `i`, and nothing is filed under it before. */
  predicate FirstAt(entries: CborMap, key: Value, v: Value, i: nat) {
    i < |entries| && entries[i] == (key, v) && forall j | 0 <= j < i :: entries[j].0 != key
  }

  ghost predicate First(entries: CborMap, key: Value, v: Value) { exists i: nat :: FirstAt(entries, key, v, i) }

  lemma {:induction false} LookupMeans(entries: CborMap, key: Value, v: Value)
    ensures Lookup(entries, key) == Some(v) <==> First(entries, key, v)
    ensures Lookup(entries, key).None? <==> !Keyed(entries, key)
  {
    if entries == [] {
    } else {
      var rest := entries[1..];
      LookupMeans(rest, key, v);
      if entries[0].0 == key {
        assert FirstAt(entries, key, entries[0].1, 0);
      } else {
        if i: nat :| FirstAt(rest, key, v, i) {
          assert FirstAt(entries, key, v, i + 1);
        }
        if i: nat :| FirstAt(entries, key, v, i) {
          assert FirstAt(rest, key, v, i - 1);
        }
        if i :| 0 <= i < |rest| && rest[i].0 == key {
          assert entries[i + 1].0 == key;
        }
        if i :| 0 <= i < |entries| && entries[i].0 == key {
          assert rest[i - 1].0 == key;
        }
      }
    }
  }

  /** At position `i` is the first byte string filed under `key`. */
  predicate FirstBytesAt(entries: CborMap, key: Value, b: Buffer, i: nat) {
    && i < |entries| && entries[i] == (key, ByteString(b))
    && forall j | 0 <= j < i :: !(entries[j].0 == key && entries[j].1.ByteString?)
  }

  ghost predicate FirstBytes(entries: CborMap, key: Value, b: Buffer) {
    exists i: nat :: FirstBytesAt(entries, key, b, i)
  }

  lemma {:induction false} FirstBytesMeans(entries: CborMap, key: Value, b: Buffer)
    ensures FirstBytesUnder(entries, key) == Some(b) <==> FirstBytes(entries, key, b)
  {
    if entries == [] {
    } else {
      var rest := entries[1..];
      FirstBytesMeans(rest, key, b);
      if entries[0].0 == key && entries[0].1.ByteString? {
        assert FirstBytesAt(entries, key, entries[0].1.bytes, 0);
      } else {
        if i: nat :| FirstBytesAt(rest, key, b, i) {
          assert FirstBytesAt(entries, key, b, i + 1);
        }
        if i: nat :| FirstBytesAt(entries, key, b, i) {
          assert FirstBytesAt(rest, key, b, i - 1);
        }
      }
    }
  }

  // ---- A registration request ------------------------------------------------------------------------

  /** An entry that settles the relying party: keyed 2, and no map, or a map with an id. */
  predicate Settles(e: (Value, Value)) { e.0 == Integer(2) && (e.1.Map? ==> Keyed(e.1.entries, Text("id"))) }

  ghost predicate RpIdAt(entries: CborMap, rpId: string, i: nat) {
    && i < |entries| && Settles(entries[i]) && (forall j | 0 <= j < i :: !Settles(entries[j]))
    && entries[i].1.Map? && First(entries[i].1.entries, Text("id"), Text(rpId))
  }

  /** The first entry that settles the relying party is a map whose first id is the text `rpId`. */
  ghost predicate HasRpId(entries: CborMap, rpId: string) { exists i: nat :: RpIdAt(entries, rpId, i) }

  lemma SettledEntry(e: (Value, Value), rpId: string)
    requires e.0 == Integer(2) && e.1.Map?
    ensures Settles(e) <==> Lookup(e.1.entries, Text("id")).Some?
    ensures First(e.1.entries, Text("id"), Text(rpId)) <==> Lookup(e.1.entries, Text("id")) == Some(Text(rpId))
  {
    LookupMeans(e.1.entries, Text("id"), Text(rpId));
  }

  lemma {:induction false} RpIdMeans(entries: CborMap, rpId: string)
    ensures RpIdIn(entries) == Some(rpId) <==> HasRpId(entries, rpId)
  {
    hide First, Lookup, Keyed;
    if entries == [] {
    } else {
      var rest := entries[1..];
      RpIdMeans(rest, rpId);
      if entries[0].0 == Integer(2) && entries[0].1.Map? {
        SettledEntry(entries[0], rpId);
      }
      if Settles(entries[0]) {
        assert HasRpId(entries, rpId) <==> RpIdAt(entries, rpId, 0);
      } else {
        if i: nat :| RpIdAt(rest, rpId, i) {
          assert RpIdAt(entries, rpId, i + 1);
        }
        if i: nat :| RpIdAt(entries, rpId, i) {
          assert RpIdAt(rest, rpId, i - 1);
        }
      }
    }
  }

  /** The first entry keyed 3 is a map, and its first byte string under "id" is `userId`. */
  ghost predicate HasUserId(entries: CborMap, userId: Buffer) {
    exists user: CborMap :: First(entries, Integer(3), Map(user)) && FirstBytes(user, Text("id"), userId)
  }

  lemma UserIdMeans(entries: CborMap, userId: Buffer)
    ensures UserIdIn(entries) == Some(userId) <==> HasUserId(entries, userId)
  {
    hide First, FirstBytes, Lookup, FirstBytesUnder;
    var v := Lookup(entries, Integer(3));
    if v.Some? {
      LookupMeans(entries, Integer(3), v.value);
      if v.value.Map? {
        FirstBytesMeans(v.value.entries, Text("id"), userId);
      }
    }
    forall user: CborMap | First(entries, Integer(3), Map(user))
      ensures v == Some(Map(user))
    {
      LookupMeans(entries, Integer(3), Map(user));
    }
  }

  predicate IsAlgorithm(e: (Value, Value)) { e.0 == Text("alg") && e.1.Integer? && FitsInt64(e.1.n) }

  predicate FirstAlgAt(fields: CborMap, a: int, i: nat) {
    && i < |fields| && IsAlgorithm(fields[i]) && fields[i].1.n == a
    && forall j | 0 <= j < i :: !IsAlgorithm(fields[j])
  }

  /** `a` is the first 64-bit integer filed under "alg". */
  ghost predicate FirstAlg(fields: CborMap, a: int) { exists i: nat :: FirstAlgAt(fields, a, i) }

  lemma {:induction false} FirstAlgMeans(fields: CborMap, a: int)
    ensures FirstAlgorithm(fields) == Some(a) <==> FirstAlg(fields, a)
  {
    if fields == [] {
    } else {
      var rest := fields[1..];
      FirstAlgMeans(rest, a);
      if IsAlgorithm(fields[0]) {
        assert FirstAlg(fields, a) <==> FirstAlgAt(fields, a, 0);
      } else {
        if i: nat :| FirstAlgAt(rest, a, i) {
          assert FirstAlgAt(fields, a, i + 1);
        }
        if i: nat :| FirstAlgAt(fields, a, i) {
          assert FirstAlgAt(rest, a, i - 1);
        }
      }
    }
  }

  ghost predicate Offered(parameters: seq<Value>, a: int) {
    exists i :: 0 <= i < |parameters| && parameters[i].Map? && FirstAlg(parameters[i].entries, a)
  }

  lemma {:induction false} OfferedMeans(parameters: seq<Value>, a: int)
    ensures a in AlgorithmsOf(parameters) <==> Offered(parameters, a)
  {
    hide FirstAlg, FirstAlgorithm;
    if parameters == [] {
    } else {
      var rest := parameters[1..];
      OfferedMeans(rest, a);
      if parameters[0].Map? {
        FirstAlgMeans(parameters[0].entries, a);
      }
      if i :| 0 <= i < |rest| && rest[i].Map? && FirstAlg(rest[i].entries, a) {
        assert parameters[i + 1] == rest[i];
      }
      if i :| 0 <= i < |parameters| && parameters[i].Map? && FirstAlg(parameters[i].entries, a) && i > 0 {
        assert rest[i - 1] == parameters[i];
      }
    }
  }

  /** The first entry keyed 4 is an array, and some map in it has `a` as its algorithm. */
  ghost predicate Offers(entries: CborMap, a: int) {
    exists parameters: seq<Value> :: First(entries, Integer(4), Array(parameters)) && Offered(parameters, a)
  }

  lemma OffersMeans(entries: CborMap, a: int)
    ensures a in AlgorithmsIn(entries) <==> Offers(entries, a)
  {
    hide First, Offered, Lookup, AlgorithmsOf;
    var v := Lookup(entries, Integer(4));
    if v.Some? {
      LookupMeans(entries, Integer(4), v.value);
      if v.value.Array? {
        OfferedMeans(v.value.items, a);
      }
    }
    forall parameters: seq<Value> | First(entries, Integer(4), Array(parameters))
      ensures v == Some(Array(parameters))
    {
      LookupMeans(entries, Integer(4), Array(parameters));
    }
  }

  /** The request carries a CBOR map with these entries. */
  predicate Carries(decode: Decoder, payload: Buffer, entries: CborMap) {
    |payload| >= 2 && decode(payload[1..]) == Some(Map(entries))
  }

  lemma EntriesMean(decode: Decoder, payload: Buffer, entries: CborMap)
    ensures Entries(decode, payload) == Found(entries) <==> Carries(decode, payload, entries)
    ensures Entries(decode, payload).Malformed? <==> |payload| >= 2 && decode(payload[1..]).None?
  {
  }

  // ---- An assertion request --------------------------------------------------------------------------

  /** At position `i` of the first `n` entries is the last text keyed 1. */
  predicate RpIdLastAt(entries: CborMap, n: nat, rpId: string, i: nat)
    requires n <= |entries|
  {
    && i < n && entries[i] == (Integer(1), Text(rpId))
    && forall j | i < j < n :: !(entries[j].0 == Integer(1) && entries[j].1.Text?)
  }

  ghost predicate LastRpId(entries: CborMap, n: nat, rpId: string)
    requires n <= |entries|
  {
    exists i: nat :: RpIdLastAt(entries, n, rpId, i)
  }

  /** At position `i` of the first `n` entries is the last byte string keyed 2. */
  predicate HashLastAt(entries: CborMap, n: nat, hash: Buffer, i: nat)
    requires n <= |entries|
  {
    && i < n && entries[i] == (Integer(2), ByteString(hash))
    && forall j | i < j < n :: !(entries[j].0 == Integer(2) && entries[j].1.ByteString?)
  }

  /** The last byte string keyed 2 is `hash`, and it has 32 bytes. */
  ghost predicate LastHash(entries: CborMap, n: nat, hash: Buffer)
    requires n <= |entries|
  {
    |hash| == 32 && exists i: nat :: HashLastAt(entries, n, hash, i)
  }

  lemma {:induction false} LastRpIdMeans(entries: CborMap, n: nat, rpId: string)
    requires n <= |entries|
    ensures FieldsAfter(entries, n).rpId == Some(rpId) <==> LastRpId(entries, n, rpId)
  {
    hide IdsOf, PresenceAfter;
    if n == 0 {
    } else {
      var m := n - 1;
      LastRpIdMeans(entries, m, rpId);
      if entries[n - 1].0 == Integer(1) && entries[n - 1].1.Text? {
        assert LastRpId(entries, n, rpId) <==> RpIdLastAt(entries, n, rpId, n - 1);
      } else {
        if i: nat :| RpIdLastAt(entries, m, rpId, i) {
          assert RpIdLastAt(entries, n, rpId, i);
        }
        if i: nat :| RpIdLastAt(entries, n, rpId, i) {
          assert RpIdLastAt(entries, m, rpId, i);
        }
      }
    }
  }

  lemma {:induction false} LastHashMeans(entries: CborMap, n: nat, hash: Buffer)
    requires n <= |entries|
    ensures FieldsAfter(entries, n).hash == Some(hash) <==> LastHash(entries, n, hash)
  {
    hide IdsOf, PresenceAfter;
    if n == 0 {
    } else {
      var m := n - 1;
      LastHashMeans(entries, m, hash);
      if entries[n - 1].0 == Integer(2) && entries[n - 1].1.ByteString? {
        assert LastHash(entries, n, hash) <==> |hash| == 32 && HashLastAt(entries, n, hash, n - 1);
      } else {
        if i: nat :| HashLastAt(entries, m, hash, i) {
          assert HashLastAt(entries, n, hash, i);
        }
        if i: nat :| HashLastAt(entries, n, hash, i) {
          assert HashLastAt(entries, m, hash, i);
        }
      }
    }
  }

  // ---- The allow list

  predicate HasId(d: Value) {
    d.Map? && exists i :: 0 <= i < |d.entries| && d.entries[i].0 == Text("id") && d.entries[i].1.ByteString?
  }

  /** `ids` are, in order, the first byte strings under "id" of the descriptors at positions
      `at`, and no other descriptor has one. */
  ghost predicate Picks(descriptors: seq<Value>, ids: seq<Buffer>, at: seq<nat>) {
    && |at| == |ids|
    && (forall k | 0 <= k < |at| :: at[k] < |descriptors| && descriptors[at[k]].Map?
                                    && FirstBytes(descriptors[at[k]].entries, Text("id"), ids[k]))
    && (forall k, l | 0 <= k < l < |at| :: at[k] < at[l])
    && (forall i: nat | i < |descriptors| && i !in at :: !HasId(descriptors[i]))
  }

  ghost predicate Lists(descriptors: seq<Value>, ids: seq<Buffer>) {
    exists at: seq<nat> :: Picks(descriptors, ids, at)
  }

  lemma HasIdMeans(d: Value)
    requires d.Map?
    ensures HasId(d) <==> FirstBytesUnder(d.entries, Text("id")).Some?
  {
    UnderMeans(d.entries, Text("id"));
  }

  lemma {:induction false} UnderMeans(entries: CborMap, key: Value)
    ensures FirstBytesUnder(entries, key).Some? <==>
              exists i :: 0 <= i < |entries| && entries[i].0 == key && entries[i].1.ByteString?
  {
    if entries == [] {
    } else {
      var rest := entries[1..];
      UnderMeans(rest, key);
      if i :| 0 <= i < |rest| && rest[i].0 == key && rest[i].1.ByteString? {
        assert entries[i + 1] == rest[i];
      }
      if i :| 0 <= i < |entries| && entries[i].0 == key && entries[i].1.ByteString? && i > 0 {
        assert rest[i - 1] == entries[i];
      }
    }
  }

  function Shifted(at: seq<nat>): seq<nat> { seq(|at|, k requires 0 <= k < |at| => at[k] + 1) }

  lemma ShiftedIn(at: seq<nat>, j: nat)
    ensures j in at <==> j + 1 in Shifted(at)
    ensures 0 !in Shifted(at)
  {
    if j in at {
      var k :| 0 <= k < |at| && at[k] == j;
      assert Shifted(at)[k] == j + 1;
    }
  }

  lemma PicksSkip(descriptors: seq<Value>, ids: seq<Buffer>, at: seq<nat>)
    requires descriptors != [] && Picks(descriptors[1..], ids, at) && !HasId(descriptors[0])
    ensures Picks(descriptors, ids, Shifted(at))
  {
    hide FirstBytes, HasId;
    forall i: nat | i < |descriptors| && i !in Shifted(at) ensures !HasId(descriptors[i]) {
      if i > 0 {
        assert descriptors[1..][i - 1] == descriptors[i];
        ShiftedIn(at, i - 1);
      }
    }
  }

  lemma PicksHead(descriptors: seq<Value>, id: Buffer, ids: seq<Buffer>, at: seq<nat>)
    requires descriptors != [] && Picks(descriptors[1..], ids, at)
    requires descriptors[0].Map? && FirstBytes(descriptors[0].entries, Text("id"), id)
    ensures Picks(descriptors, [id] + ids, [0] + Shifted(at))
  {
    hide FirstBytes, HasId;
    var at' := [0] + Shifted(at);
    forall k | 0 <= k < |at'| ensures at'[k] < |descriptors| && descriptors[at'[k]].Map?
                                      && FirstBytes(descriptors[at'[k]].entries, Text("id"), ([id] + ids)[k])
    {
      if k > 0 {
        assert descriptors[1..][at[k - 1]] == descriptors[at'[k]];
      }
    }
    forall i: nat | i < |descriptors| && i !in at' ensures !HasId(descriptors[i]) {
      assert i != 0 by {
        assert at'[0] == 0;
      }
      assert descriptors[1..][i - 1] == descriptors[i];
      ShiftedIn(at, i - 1);
    }
  }

  lemma {:induction false} IdsMean(descriptors: seq<Value>)
    ensures Lists(descriptors, IdsOf(descriptors))
  {
    if descriptors == [] {
      assert Picks([], [], []);
    } else {
      var d, rest := descriptors[0], descriptors[1..];
      IdsMean(rest);
      var at: seq<nat> :| Picks(rest, IdsOf(rest), at);
      hide Picks, FirstBytes;
      if d.Map? {
        HasIdMeans(d);
      }
      if HasId(d) {
        var id := FirstBytesUnder(d.entries, Text("id")).value;
        FirstBytesMeans(d.entries, Text("id"), id);
        PicksHead(descriptors, id, IdsOf(rest), at);
      } else {
        PicksSkip(descriptors, IdsOf(rest), at);
      }
    }
  }

  predicate IsAllowList(e: (Value, Value)) { e.0 == Integer(3) && e.1.Array? }

  /** The last array keyed 3 lists `ids`; without one there are none. */
  ghost predicate Allows(entries: CborMap, n: nat, ids: seq<Buffer>)
    requires n <= |entries|
  {
    if forall i | 0 <= i < n :: !IsAllowList(entries[i]) then ids == []
    else exists i :: 0 <= i < n && IsAllowList(entries[i]) && Lists(entries[i].1.items, ids)
                     && forall j | i < j < n :: !IsAllowList(entries[j])
  }

  lemma {:induction false} AllowsMeans(entries: CborMap, n: nat)
    requires n <= |entries|
    ensures Allows(entries, n, FieldsAfter(entries, n).allowList)
  {
    hide IdsOf, PresenceAfter, Lists;
    if n == 0 {
    } else {
      AllowsMeans(entries, n - 1);
      if IsAllowList(entries[n - 1]) {
        IdsMean(entries[n - 1].1.items);
      }
    }
  }

  // ---- User presence

  predicate IsUp(e: (Value, Value)) { e.0 == Text("up") && e.1.Bool? }

  /** The last boolean "up" of the first `n` options is `b`. */
  predicate LastUp(options: CborMap, n: nat, b: bool)
    requires n <= |options|
  {
    exists k :: 0 <= k < n && options[k] == (Text("up"), Bool(b)) && forall j | k < j < n :: !IsUp(options[j])
  }

  lemma {:induction false} PresenceMeans(options: CborMap, n: nat, before: bool, b: bool)
    requires n <= |options|
    ensures (forall k | 0 <= k < n :: !IsUp(options[k])) ==> PresenceAfter(options, n, before) == before
    ensures (exists k :: 0 <= k < n && IsUp(options[k])) ==>
              (PresenceAfter(options, n, before) == b <==> LastUp(options, n, b))
  {
    if n == 0 {
    } else {
      PresenceMeans(options, n - 1, before, b);
    }
  }

  predicate SetsPresence(e: (Value, Value)) {
    e.0 == Integer(5) && e.1.Map? && exists k :: 0 <= k < |e.1.entries| && IsUp(e.1.entries[k])
  }

  /** The last boolean "up", over all option maps of the first `n` entries, is false. */
  predicate Waives(entries: CborMap, n: nat)
    requires n <= |entries|
  {
    exists i :: 0 <= i < n && SetsPresence(entries[i]) && LastUp(entries[i].1.entries, |entries[i].1.entries|, false)
                && forall j | i < j < n :: !SetsPresence(entries[j])
  }

  lemma {:induction false} WaivesMeans(entries: CborMap, n: nat)
    requires n <= |entries|
    ensures FieldsAfter(entries, n).userPresence <==> !Waives(entries, n)
  {
    hide IdsOf, PresenceAfter, LastUp;
    if n == 0 {
    } else {
      WaivesMeans(entries, n - 1);
      var e := entries[n - 1];
      if e.0 == Integer(5) && e.1.Map? {
        PresenceMeans(e.1.entries, |e.1.entries|, FieldsAfter(entries, n - 1).userPresence, false);
      }
    }
  }

  // ---- Whole requests --------------------------------------------------------------------------------

  /** The payload asks for a credential for `rpId`; `eddsa` says whether it offers EdDSA (-8). */
  ghost predicate AsksToRegister(decode: Decoder, payload: Buffer, rpId: string, eddsa: bool) {
    exists entries: CborMap, userId: Buffer ::
      && Carries(decode, payload, entries) && HasRpId(entries, rpId) && HasUserId(entries, userId)
      && (eddsa <==> Offers(entries, -8))
  }

  /** The payload asks for an assertion with these fields. */
  ghost predicate AsksToAssert(decode: Decoder, payload: Buffer, rpId: string, hash: Buffer, allowList: seq<Buffer>,
                               present: bool)
  {
    exists entries: CborMap ::
      && Carries(decode, payload, entries) && LastRpId(entries, |entries|, rpId) && LastHash(entries, |entries|, hash)
      && Allows(entries, |entries|, allowList) && (present <==> !Waives(entries, |entries|))
  }

  /** An assertion request is read exactly when it has a relying-party id and a 32-byte hash,
      and then as what it says. */
  lemma AssertionRequestMeans(decode: Decoder, payload: Buffer)
    ensures var r := ReadGetAssertion(decode, payload);
            r.Found? ==> AsksToAssert(decode, payload, r.value.rpId.value, r.value.hash.value, r.value.allowList,
                                      r.value.userPresence)
    ensures ReadGetAssertion(decode, payload).Found? <==>
              exists entries: CborMap, rpId: string, hash: Buffer ::
                && Carries(decode, payload, entries)
                && LastRpId(entries, |entries|, rpId) && LastHash(entries, |entries|, hash)
    ensures ReadGetAssertion(decode, payload).Malformed? <==> |payload| >= 2 && decode(payload[1..]).None?
  {
    hide FieldsAfter, LastRpId, LastHash, Allows, Waives;
    var e := Entries(decode, payload);
    if e.Found? {
      var entries := e.value;
      var r := FieldsAfter(entries, |entries|);
      EntriesMean(decode, payload, entries);
      AllowsMeans(entries, |entries|);
      WaivesMeans(entries, |entries|);
      forall rpId: string ensures r.rpId == Some(rpId) <==> LastRpId(entries, |entries|, rpId) {
        LastRpIdMeans(entries, |entries|, rpId);
      }
      forall hash: Buffer ensures r.hash == Some(hash) <==> LastHash(entries, |entries|, hash) {
        LastHashMeans(entries, |entries|, hash);
      }
    }
  }

  lemma OnlyFoundAsks(decode: Decoder, payload: Buffer, rpId: string, hash: Buffer, allowList: seq<Buffer>,
                      present: bool)
    ensures AsksToAssert(decode, payload, rpId, hash, allowList, present) ==> ReadGetAssertion(decode, payload).Found?
  {
    hide ReadGetAssertion, LastRpId, LastHash, Allows, Waives;
    AssertionRequestMeans(decode, payload);
  }
}
