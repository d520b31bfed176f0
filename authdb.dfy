/**
 * The auth-state adapter: the credentials and the key provider the transport
 * library is given for one tenant, built over the auth table of the tenant
 * persistence layer (module Database).
 */
module AuthDb {
  import opened Values
  import opened Database

  /** The auth-store key of the credentials bundle. */
  const CredsKey := "creds"

  /** The auth-store key of entry `id` of key type `keyType`. */
  function KeyName(keyType: string, id: string): string
  {
    keyType + "-" + id
  }

  /** One `id: value` member of `data[type]`, as keys.set enumerates it. */
  datatype KeyEntry = KeyEntry(id: string, value: Json)

  /** One `type: { ... }` member of the object keys.set receives, as it enumerates it. */
  datatype KeyGroup = KeyGroup(keyType: string, entries: seq<KeyEntry>)

  /** The outcome of saveCreds. */
  datatype SaveOutcome = Saved | ThrewTypeError

  /** state.creds: the stored credentials, or `{}` when the store has nothing truthy. */
  function InitialCreds(stored: Json): (c: Json)
    ensures Truthy(c)
    ensures Truthy(stored) ==> c == stored
    ensures !Truthy(stored) ==> c == JObject(map[])
  {
    if Truthy(stored) then stored else JObject(map[])
  }

  // ---------------------------------------------------------------------------
  // The writes keys.set performs
  // ---------------------------------------------------------------------------

  /** The auth-store writes for the entries of one key type, in enumeration order. */
  function EntryWrites(keyType: string, entries: seq<KeyEntry>): (ws: seq<AuthEntry>)
    ensures |ws| == |entries|
    ensures forall i :: 0 <= i < |entries| ==>
      ws[i] == AuthEntry(KeyName(keyType, entries[i].id), entries[i].value)
  {
    if entries == [] then []
    else
      var last := entries[|entries| - 1];
      EntryWrites(keyType, entries[..|entries| - 1]) + [AuthEntry(KeyName(keyType, last.id), last.value)]
  }

  /** All auth-store writes of keys.set(data), in the order the two loops perform them. */
  function Writes(data: seq<KeyGroup>): (ws: seq<AuthEntry>)
  {
    if data == [] then []
    else
      var last := data[|data| - 1];
      Writes(data[..|data| - 1]) + EntryWrites(last.keyType, last.entries)
  }

  /** Every (type, id) entry of data is written, with its value, under KeyName(type, id). */
  lemma {:induction false} WritesCoverData(data: seq<KeyGroup>, g: nat, i: nat)
    requires g < |data| && i < |data[g].entries|
    ensures AuthEntry(KeyName(data[g].keyType, data[g].entries[i].id), data[g].entries[i].value) in Writes(data)
  {
    var init := data[..|data| - 1];
    var tail := EntryWrites(data[|data| - 1].keyType, data[|data| - 1].entries);
    if g < |data| - 1 {
      assert data[g] == init[g];
      WritesCoverData(init, g, i);
    } else {
      assert tail[i] in tail;
    }
  }

  /** The value the last write to key k in ws stores, if ws writes k at all. */
  function LastWrite(ws: seq<AuthEntry>, k: string): (r: Option<Json>)
    ensures r.None? <==> forall i :: 0 <= i < |ws| ==> ws[i].key != k
    ensures r.Some? ==>
      (exists i :: 0 <= i < |ws| && ws[i] == AuthEntry(k, r.value) && (forall j :: i < j < |ws| ==> ws[j].key != k))
  {
    if ws == [] then None
    else if ws[|ws| - 1].key == k then Some(ws[|ws| - 1].value)
    else LastWrite(ws[..|ws| - 1], k)
  }

  lemma LastWriteAppend(ws: seq<AuthEntry>, w: AuthEntry)
    ensures forall k :: LastWrite(ws + [w], k) == if w.key == k then Some(w.value) else LastWrite(ws, k)
  {
    assert (ws + [w])[..|ws|] == ws;
  }

  /** The writes of one more entry of a group follow those of the entries before it. */
  lemma EntryWritesStep(keyType: string, entries: seq<KeyEntry>, i: nat)
    requires i < |entries|
    ensures EntryWrites(keyType, entries[..i + 1]) ==
      EntryWrites(keyType, entries[..i]) + [AuthEntry(KeyName(keyType, entries[i].id), entries[i].value)]
  {
    assert entries[..i + 1][..i] == entries[..i];
  }

  /** The writes of one more group follow those of the groups before it. */
  lemma WritesStep(data: seq<KeyGroup>, g: nat)
    requires g < |data|
    ensures Writes(data[..g + 1]) == Writes(data[..g]) + EntryWrites(data[g].keyType, data[g].entries)
  {
    assert data[..g + 1][..g] == data[..g];
  }

  /** The auth table after authStore.set(e, w.key, w.value) for each write w of ws, in order. */
  function SetAll(rows: seq<Row<AuthEntry>>, e: string, ws: seq<AuthEntry>): seq<Row<AuthEntry>>
  {
    if ws == [] then rows
    else
      var w := ws[|ws| - 1];
      ExceptKey(SetAll(rows, e, ws[..|ws| - 1]), e, w.key) + [Row(e, w)]
  }

  /** One more write replaces that key's row and appends it. */
  lemma SetAllStep(rows: seq<Row<AuthEntry>>, e: string, ws: seq<AuthEntry>, w: AuthEntry)
    ensures SetAll(rows, e, ws + [w]) == ExceptKey(SetAll(rows, e, ws), e, w.key) + [Row(e, w)]
  {
    assert (ws + [w])[..|ws|] == ws;
  }

  /** Two runs of writes, one after the other, are the run of their concatenation. */
  lemma {:induction false} SetAllConcat(rows: seq<Row<AuthEntry>>, e: string, a: seq<AuthEntry>, b: seq<AuthEntry>)
    ensures SetAll(SetAll(rows, e, a), e, b) == SetAll(rows, e, a + b)
    decreases |b|
  {
    if b != [] {
      var w := b[|b| - 1];
      var b' := b[..|b| - 1];
      assert b == b' + [w];
      assert a + b == (a + b') + [w];
      SetAllConcat(rows, e, a, b');
      SetAllStep(SetAll(rows, e, a), e, b', w);
      SetAllStep(rows, e, a + b', w);
    }
    else {
      assert a + b == a;
    }
  }

  /**
   * A run of writes for tenant e leaves each of e's keys holding its last
   * written value (or what it held before), and other tenants' rows as they were.
   */
  lemma {:induction false} SetAllEffect(rows: seq<Row<AuthEntry>>, e: string, ws: seq<AuthEntry>)
    requires OnePerKey(rows)
    ensures OnePerKey(SetAll(rows, e, ws))
    ensures forall k :: Lookup(SetAll(rows, e, ws), e, k) == LastWrite(ws, k).GetOr(Lookup(rows, e, k))
    ensures forall e', k :: e' != e ==> OfKey(SetAll(rows, e, ws), e', k) == OfKey(rows, e', k)
    ensures forall e' :: e' != e ==> OfTenant(SetAll(rows, e, ws), e') == OfTenant(rows, e')
  {
    if ws != [] {
      var init, w := ws[..|ws| - 1], ws[|ws| - 1];
      assert ws == init + [w];
      var before := SetAll(rows, e, init);
      SetAllEffect(rows, e, init);
      ReplaceKeyRow(before, Row(e, w));
      LastWriteAppend(init, w);
      forall k ensures Lookup(SetAll(rows, e, ws), e, k) == LastWrite(ws, k).GetOr(Lookup(rows, e, k)) {
        if k != w.key {
          assert OfKey(SetAll(rows, e, ws), e, k) == OfKey(before, e, k);
        }
      }
    }
  }

  /** No two writes share a key: what keys.set needs to keep every entry it is given. */
  ghost predicate DistinctKeys(ws: seq<AuthEntry>)
  {
    forall i, j :: 0 <= i < j < |ws| ==> ws[i].key != ws[j].key
  }

  /** When the composite keys of data are all distinct, each entry reads back the value given for it. */
  lemma SetKeepsDistinctEntries(data: seq<KeyGroup>, g: nat, i: nat)
    requires DistinctKeys(Writes(data))
    requires g < |data| && i < |data[g].entries|
    ensures LastWrite(Writes(data), KeyName(data[g].keyType, data[g].entries[i].id)) == Some(data[g].entries[i].value)
  {
    var ws := Writes(data);
    var k := KeyName(data[g].keyType, data[g].entries[i].id);
    WritesCoverData(data, g, i);
    var n :| 0 <= n < |ws| && ws[n] == AuthEntry(k, data[g].entries[i].value);
    var r := LastWrite(ws, k);
    var m :| 0 <= m < |ws| && ws[m] == AuthEntry(k, r.value) && forall j :: m < j < |ws| ==> ws[j].key != k;
    assert m == n;
  }

  /**
   * `${type}-${id}` is not injective ("a-b"/"c" and "a"/"b-c" give one key), so a
   * keys.set whose entries collide keeps only the later value.
   */
  lemma SetCollisionKeepsLast(v1: Json, v2: Json)
    requires v1 != v2
    ensures var data := [KeyGroup("a-b", [KeyEntry("c", v1)]), KeyGroup("a", [KeyEntry("b-c", v2)])];
      LastWrite(Writes(data), KeyName("a-b", "c")) == Some(v2) != Some(v1)
  {
    var data := [KeyGroup("a-b", [KeyEntry("c", v1)]), KeyGroup("a", [KeyEntry("b-c", v2)])];
    assert data[..1][..0] == [] && data[..1] == [data[0]];
    var first := EntryWrites("a-b", [KeyEntry("c", v1)]);
    var second := EntryWrites("a", [KeyEntry("b-c", v2)]);
    var k := KeyName("a-b", "c");
    assert k == KeyName("a", "b-c");
    assert first == [AuthEntry(k, v1)];
    assert second == [AuthEntry(k, v2)];
    assert Writes(data[..1]) == first;
    assert Writes(data) == first + second;
    LastWriteAppend(first, AuthEntry(k, v2));
  }

  // ---------------------------------------------------------------------------
  // authDb(empresaId).state
  // ---------------------------------------------------------------------------

  /** The auth state handed to the transport for one tenant. */
  class AuthState {
    const store: Store
    const empresaId: string
    var creds: Json

    /** authDb(empresaId): load the credentials, defaulting to `{}`. */
    constructor (store: Store, empresaId: string)
      requires store.Valid()
      ensures this.store == store && this.empresaId == empresaId
      ensures creds == InitialCreds(store.AuthGet(empresaId, CredsKey))
    {
      this.store := store;
      this.empresaId := empresaId;
      creds := InitialCreds(store.AuthGet(empresaId, CredsKey));
    }

    /** keys.get: the ids among `ids` whose stored value is truthy, with that value. */
    method KeysGet(keyType: string, ids: seq<string>) returns (out: map<string, Json>)
      requires store.Valid()
      ensures forall id :: id in out ==> id in ids
      ensures forall id :: id in out ==> Truthy(out[id]) && out[id] == store.AuthGet(empresaId, KeyName(keyType, id))
      ensures forall id :: id in ids && Truthy(store.AuthGet(empresaId, KeyName(keyType, id))) ==> id in out
    {
      out := map[];
      for i := 0 to |ids|
        invariant forall id :: id in out ==> id in ids[..i]
        invariant forall id :: id in out ==> Truthy(out[id]) && out[id] == store.AuthGet(empresaId, KeyName(keyType, id))
        invariant forall j :: 0 <= j < i && Truthy(store.AuthGet(empresaId, KeyName(keyType, ids[j]))) ==> ids[j] in out
      {
        var key := store.AuthGet(empresaId, KeyName(keyType, ids[i]));
        if Truthy(key) {
          out := out[ids[i] := key];
        }
      }
    }

    /** keys.set: write every entry of data, in enumeration order, under its composite key. */
    method KeysSet(data: seq<KeyGroup>)
      requires store.Valid()
      modifies store
      ensures store.Valid()
      ensures store.auth == SetAll(old(store.auth), empresaId, Writes(data))
      ensures forall k :: store.AuthGet(empresaId, k) == LastWrite(Writes(data), k).GetOr(old(store.AuthGet(empresaId, k)))
      ensures forall e, k :: e != empresaId ==> store.AuthGet(e, k) == old(store.AuthGet(e, k))
      ensures forall e :: e != empresaId ==> OfTenant(store.auth, e) == OfTenant(old(store.auth), e)
      ensures store.empresas == old(store.empresas) && store.qr == old(store.qr) && store.mensagens == old(store.mensagens)
    {
      ghost var before := store.auth;
      for g := 0 to |data|
        invariant store.Valid()
        invariant store.auth == SetAll(before, empresaId, Writes(data[..g]))
        invariant store.empresas == old(store.empresas) && store.qr == old(store.qr) && store.mensagens == old(store.mensagens)
      {
        SetGroup(data[g]);
        SetAllConcat(before, empresaId, Writes(data[..g]), EntryWrites(data[g].keyType, data[g].entries));
        WritesStep(data, g);
      }
      assert data[..|data|] == data;
      SetAllEffect(before, empresaId, Writes(data));
    }

    /** The inner loop of keys.set: write the entries of one key type, in order. */
    method SetGroup(group: KeyGroup)
      requires store.Valid()
      modifies store
      ensures store.Valid()
      ensures store.auth == SetAll(old(store.auth), empresaId, EntryWrites(group.keyType, group.entries))
      ensures store.empresas == old(store.empresas) && store.qr == old(store.qr) && store.mensagens == old(store.mensagens)
    {
      ghost var before := store.auth;
      for i := 0 to |group.entries|
        invariant store.Valid()
        invariant store.auth == SetAll(before, empresaId, EntryWrites(group.keyType, group.entries[..i]))
        invariant store.empresas == old(store.empresas) && store.qr == old(store.qr) && store.mensagens == old(store.mensagens)
      {
        var entry := group.entries[i];
        var w := AuthEntry(KeyName(group.keyType, entry.id), entry.value);
        SetAllStep(before, empresaId, EntryWrites(group.keyType, group.entries[..i]), w);
        EntryWritesStep(group.keyType, group.entries, i);
        store.AuthSet(empresaId, w.key, w.value);
      }
      assert group.entries[..|group.entries|] == group.entries;
    }

    /**
     * The body of saveCreds, `authStore.set(empresaId, "creds",
     * this.state.creds)`, run with `this` bound to `receiver`. The argument
     * `this.state.creds` is read before the call, so a missing receiver
     * throws and stores nothing; a present one stores its credentials under
     * "creds".
     */
    method SaveCredsWith(receiver: Option<AuthState>) returns (r: SaveOutcome)
      requires store.Valid()
      modifies store
      ensures store.Valid()
      ensures receiver.None? ==> r == ThrewTypeError && store.auth == old(store.auth)
      ensures receiver.Some? ==> (r == Saved &&
        store.auth == ExceptKey(old(store.auth), empresaId, CredsKey) + [Row(empresaId, AuthEntry(CredsKey, receiver.value.creds))] &&
        store.AuthGet(empresaId, CredsKey) == receiver.value.creds)
      ensures forall e, k :: e != empresaId || k != CredsKey ==> store.AuthGet(e, k) == old(store.AuthGet(e, k))
      ensures store.empresas == old(store.empresas) && store.qr == old(store.qr) && store.mensagens == old(store.mensagens)
    {
      if receiver.None? {
        return ThrewTypeError;
      }
      store.AuthSet(empresaId, CredsKey, receiver.value.creds);
      r := Saved;
    }

    /**
     * saveCreds as written: both it and authDb are arrow functions, so
     * `this` is the ES module's top-level `undefined`, and the call throws
     * before anything is stored.
     */
    method SaveCredsAsWritten() returns (r: SaveOutcome)
      requires store.Valid()
      modifies store
      ensures r == ThrewTypeError
      ensures store.auth == old(store.auth)
      ensures store.empresas == old(store.empresas) && store.qr == old(store.qr) && store.mensagens == old(store.mensagens)
    {
      r := SaveCredsWith(None);
    }

    /**
     * saveCreds as intended, with `this` the returned auth state: store the
     * current credentials under "creds", so that a later authDb(empresaId)
     * starts from them.
     */
    method SaveCreds() returns (r: SaveOutcome)
      requires store.Valid()
      modifies store
      ensures store.Valid()
      ensures r == Saved
      ensures store.auth == ExceptKey(old(store.auth), empresaId, CredsKey) + [Row(empresaId, AuthEntry(CredsKey, creds))]
      ensures store.AuthGet(empresaId, CredsKey) == creds
      ensures InitialCreds(store.AuthGet(empresaId, CredsKey)) == InitialCreds(creds)
      ensures forall e, k :: e != empresaId || k != CredsKey ==> store.AuthGet(e, k) == old(store.AuthGet(e, k))
      ensures store.empresas == old(store.empresas) && store.qr == old(store.qr) && store.mensagens == old(store.mensagens)
    {
      r := SaveCredsWith(Some(this));
    }
  }
}
