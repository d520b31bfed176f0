/**
 * The tenant persistence layer: four SQLite tables keyed by empresaId.
 *
 * A table is a sequence of rows in rowid (insertion) order; `empresas` has a
 * primary key and is a map. Each SELECT or DELETE the layer issues is a pure
 * function of the table (OfTenant, ExceptTenant, OfKey, ExceptKey), and each
 * exported operation is a method of Store that reassigns the tables it writes.
 */
module Database {
  import opened Values

  /** A row of a tenant table: its empresaId column and the remaining columns. */
  datatype Row<V> = Row(empresaId: string, data: V)

  /** The key and value columns of an `auth` row (the value after the JSON round trip). */
  datatype AuthEntry = AuthEntry(key: string, value: Json)

  /** The columns of a `mensagens` row after empresaId; createdAt in seconds. */
  datatype StoredMessage = StoredMessage(
    id: Option<string>,
    fromNum: Option<string>,
    toNum: Option<string>,
    body: Option<string>,
    createdAt: nat)

  /** The `msg` argument of saveMessage. */
  datatype Message = Message(id: Option<string>, from: Option<string>, to: Option<string>, body: Option<string>)

  // ---------------------------------------------------------------------------
  // Queries by tenant
  // ---------------------------------------------------------------------------

  /** SELECT * FROM t WHERE empresaId = e, in table order. */
  function OfTenant<V(!new)>(rows: seq<Row<V>>, e: string): (r: seq<Row<V>>)
    ensures |r| <= |rows|
    ensures forall x {:trigger x in r} {:trigger x in rows} :: x in r <==> x in rows && x.empresaId == e
  {
    if rows == [] then []
    else
      var init, last := rows[..|rows| - 1], rows[|rows| - 1];
      assert rows == init + [last];
      OfTenant(init, e) + (if last.empresaId == e then [last] else [])
  }

  lemma {:induction false} OfTenantAppend<V(!new)>(a: seq<Row<V>>, b: seq<Row<V>>)
    ensures forall e {:trigger OfTenant(a + b, e)} :: OfTenant(a + b, e) == OfTenant(a, e) + OfTenant(b, e)
    decreases |b|
  {
    if b == [] {
      assert a + b == a;
    } else {
      var init := b[..|b| - 1];
      assert (a + b)[..|a + b| - 1] == a + init;
      OfTenantAppend(a, init);
    }
  }

  lemma OfTenantOne<V(!new)>(x: Row<V>)
    ensures forall e :: OfTenant([x], e) == if x.empresaId == e then [x] else []
  {
    assert [x][..0] == [];
  }

  /** The rows left by DELETE FROM t WHERE empresaId = e. */
  function ExceptTenant<V(!new)>(rows: seq<Row<V>>, e: string): (r: seq<Row<V>>)
    ensures forall x {:trigger x in r} {:trigger x in rows} :: x in r <==> x in rows && x.empresaId != e
  {
    if rows == [] then []
    else
      var init, last := rows[..|rows| - 1], rows[|rows| - 1];
      assert rows == init + [last];
      ExceptTenant(init, e) + if last.empresaId == e then [] else [last]
  }

  /** After the delete the tenant has no rows and every other tenant has the rows it had, in order. */
  lemma {:induction false} OfTenantExceptTenant<V(!new)>(rows: seq<Row<V>>, e: string)
    ensures forall e' {:trigger OfTenant(ExceptTenant(rows, e), e')} ::
      OfTenant(ExceptTenant(rows, e), e') == if e' == e then [] else OfTenant(rows, e')
  {
    if rows != [] {
      var init, last := rows[..|rows| - 1], rows[|rows| - 1];
      var kept := if last.empresaId == e then [] else [last];
      assert rows == init + [last];
      OfTenantExceptTenant(init, e);
      OfTenantAppend(init, [last]);
      OfTenantAppend(ExceptTenant(init, e), kept);
      OfTenantOne(last);
    }
  }

  /** Deleting a tenant's rows a second time deletes nothing more. */
  lemma {:induction false} ExceptTenantIdempotent<V(!new)>(rows: seq<Row<V>>, e: string)
    ensures ExceptTenant(ExceptTenant(rows, e), e) == ExceptTenant(rows, e)
  {
    NoTenantRowsUnchanged(ExceptTenant(rows, e), e);
  }

  /** Deleting the rows of a tenant that has none leaves the table as it was. */
  lemma {:induction false} NoTenantRowsUnchanged<V(!new)>(rows: seq<Row<V>>, e: string)
    requires forall x :: x in rows ==> x.empresaId != e
    ensures ExceptTenant(rows, e) == rows
  {
    if rows != [] {
      var init, last := rows[..|rows| - 1], rows[|rows| - 1];
      assert rows == init + [last];
      assert last in rows;
      NoTenantRowsUnchanged(init, e);
      assert ExceptTenant(rows, e) == ExceptTenant(init, e) + [last];
    }
  }

  // ---------------------------------------------------------------------------
  // Queries by (tenant, key) on the auth table
  // ---------------------------------------------------------------------------

  /** SELECT * FROM auth WHERE empresaId = e AND key = k, in table order. */
  function OfKey(rows: seq<Row<AuthEntry>>, e: string, k: string): (r: seq<Row<AuthEntry>>)
    ensures forall x {:trigger x in r} {:trigger x in rows} :: x in r <==> x in rows && x.empresaId == e && x.data.key == k
  {
    if rows == [] then []
    else
      var init, last := rows[..|rows| - 1], rows[|rows| - 1];
      assert rows == init + [last];
      OfKey(init, e, k) + (if last.empresaId == e && last.data.key == k then [last] else [])
  }

  lemma {:induction false} OfKeyAppend(a: seq<Row<AuthEntry>>, b: seq<Row<AuthEntry>>)
    ensures forall e, k {:trigger OfKey(a + b, e, k)} :: OfKey(a + b, e, k) == OfKey(a, e, k) + OfKey(b, e, k)
    decreases |b|
  {
    if b == [] {
      assert a + b == a;
    } else {
      var init := b[..|b| - 1];
      assert (a + b)[..|a + b| - 1] == a + init;
      OfKeyAppend(a, init);
    }
  }

  lemma OfKeyOne(x: Row<AuthEntry>)
    ensures forall e, k :: OfKey([x], e, k) == if x.empresaId == e && x.data.key == k then [x] else []
  {
    assert [x][..0] == [];
  }

  /** The rows left by DELETE FROM auth WHERE empresaId = e AND key = k. */
  function ExceptKey(rows: seq<Row<AuthEntry>>, e: string, k: string): (r: seq<Row<AuthEntry>>)
    ensures forall x {:trigger x in r} {:trigger x in rows} :: x in r <==> x in rows && (x.empresaId != e || x.data.key != k)
  {
    if rows == [] then []
    else
      var init, last := rows[..|rows| - 1], rows[|rows| - 1];
      assert rows == init + [last];
      ExceptKey(init, e, k) + if last.empresaId == e && last.data.key == k then [] else [last]
  }

  /** After the delete the pair has no row and every other pair has the rows it had. */
  lemma {:induction false} OfKeyExceptKey(rows: seq<Row<AuthEntry>>, e: string, k: string)
    ensures forall e', k' {:trigger OfKey(ExceptKey(rows, e, k), e', k')} ::
      OfKey(ExceptKey(rows, e, k), e', k') == if e' == e && k' == k then [] else OfKey(rows, e', k')
  {
    if rows != [] {
      var init, last := rows[..|rows| - 1], rows[|rows| - 1];
      var kept := if last.empresaId == e && last.data.key == k then [] else [last];
      assert rows == init + [last];
      OfKeyExceptKey(init, e, k);
      OfKeyAppend(init, [last]);
      OfKeyAppend(ExceptKey(init, e, k), kept);
      OfKeyOne(last);
    }
  }

  /** Deleting one key leaves the rows of every other tenant as they were. */
  lemma {:induction false} OfTenantExceptKey(rows: seq<Row<AuthEntry>>, e: string, k: string)
    ensures forall e' {:trigger OfTenant(ExceptKey(rows, e, k), e')} ::
      e' != e ==> OfTenant(ExceptKey(rows, e, k), e') == OfTenant(rows, e')
  {
    if rows != [] {
      var init, last := rows[..|rows| - 1], rows[|rows| - 1];
      var kept := if last.empresaId == e && last.data.key == k then [] else [last];
      assert rows == init + [last];
      OfTenantExceptKey(init, e, k);
      OfTenantAppend(init, [last]);
      OfTenantAppend(ExceptKey(init, e, k), kept);
      OfTenantOne(last);
    }
  }

  /** Deleting a whole tenant removes every key of it and no key of another tenant. */
  lemma {:induction false} OfKeyExceptTenant(rows: seq<Row<AuthEntry>>, e: string)
    ensures forall e', k {:trigger OfKey(ExceptTenant(rows, e), e', k)} :: OfKey(ExceptTenant(rows, e), e', k) == if e' == e then [] else OfKey(rows, e', k)
  {
    if rows != [] {
      var init, last := rows[..|rows| - 1], rows[|rows| - 1];
      var kept := if last.empresaId == e then [] else [last];
      assert rows == init + [last];
      OfKeyExceptTenant(init, e);
      OfKeyAppend(init, [last]);
      OfKeyAppend(ExceptTenant(init, e), kept);
    }
  }

  /** The value SELECT value ... LIMIT 1 yields for (e, k), after JSON.parse; null without a row. */
  function Lookup(rows: seq<Row<AuthEntry>>, e: string, k: string): Json
  {
    var m := OfKey(rows, e, k);
    if m == [] then JNull else m[0].data.value
  }

  // ---------------------------------------------------------------------------
  // ORDER BY createdAt DESC
  // ---------------------------------------------------------------------------

  /** Non-increasing createdAt, the order of ORDER BY createdAt DESC. */
  ghost predicate NewestFirst(s: seq<Row<StoredMessage>>)
  {
    forall i, j :: 0 <= i < j < |s| ==> s[i].data.createdAt >= s[j].data.createdAt
  }

  /** No row of s is newer than t. */
  ghost predicate NoNewerThan(s: seq<Row<StoredMessage>>, t: nat)
  {
    forall i :: 0 <= i < |s| ==> s[i].data.createdAt <= t
  }

  function InsertNewest(x: Row<StoredMessage>, s: seq<Row<StoredMessage>>): (r: seq<Row<StoredMessage>>)
    requires NewestFirst(s)
    ensures NewestFirst(r)
    ensures forall t :: NoNewerThan(s, t) && x.data.createdAt <= t ==> NoNewerThan(r, t)
  {
    if s == [] || x.data.createdAt >= s[0].data.createdAt then
      var r := [x] + s;
      assert forall j :: 0 < j < |r| ==> r[j] == s[j - 1];
      r
    else
      var rest := InsertNewest(x, s[1..]);
      assert s == [s[0]] + s[1..];
      assert NoNewerThan(s[1..], s[0].data.createdAt);
      var r := [s[0]] + rest;
      assert forall j :: 0 < j < |r| ==> r[j] == rest[j - 1];
      r
  }

  lemma {:induction false} InsertNewestPermutes(x: Row<StoredMessage>, s: seq<Row<StoredMessage>>)
    requires NewestFirst(s)
    ensures multiset(InsertNewest(x, s)) == multiset(s) + multiset{x}
  {
    if s != [] && x.data.createdAt < s[0].data.createdAt {
      InsertNewestPermutes(x, s[1..]);
      assert s == [s[0]] + s[1..];
    }
  }

  /**
   * The order in which the engine returns rows for ORDER BY createdAt DESC.
   * Rows with equal createdAt may come back in any order; this is one of them.
   */
  function SortNewest(s: seq<Row<StoredMessage>>): (r: seq<Row<StoredMessage>>)
    ensures NewestFirst(r)
  {
    if s == [] then [] else InsertNewest(s[0], SortNewest(s[1..]))
  }

  /** Sorting neither loses nor adds a row. */
  lemma {:induction false} SortNewestPermutes(s: seq<Row<StoredMessage>>)
    ensures multiset(SortNewest(s)) == multiset(s)
  {
    if s != [] {
      SortNewestPermutes(s[1..]);
      InsertNewestPermutes(s[0], SortNewest(s[1..]));
      assert s == [s[0]] + s[1..];
    }
  }

  // ---------------------------------------------------------------------------
  // Single-slot tables
  // ---------------------------------------------------------------------------

  /** At most one row per tenant: the shape saveQR keeps the qr table in. */
  ghost predicate OnePerTenant<V(!new)>(rows: seq<Row<V>>)
  {
    forall e :: |OfTenant(rows, e)| <= 1
  }

  /** At most one row per (tenant, key): the shape authStore.set keeps the auth table in. */
  ghost predicate OnePerKey(rows: seq<Row<AuthEntry>>)
  {
    forall e, k :: |OfKey(rows, e, k)| <= 1
  }

  /** Delete-then-insert leaves exactly the new row for its tenant and no other tenant changed. */
  lemma ReplaceTenantRow<V(!new)>(rows: seq<Row<V>>, x: Row<V>)
    requires OnePerTenant(rows)
    ensures OfTenant(ExceptTenant(rows, x.empresaId) + [x], x.empresaId) == [x]
    ensures forall e' :: e' != x.empresaId ==>
      OfTenant(ExceptTenant(rows, x.empresaId) + [x], e') == OfTenant(rows, e')
    ensures OnePerTenant(ExceptTenant(rows, x.empresaId) + [x])
  {
    var kept := ExceptTenant(rows, x.empresaId);
    OfTenantExceptTenant(rows, x.empresaId);
    OfTenantAppend(kept, [x]);
    OfTenantOne(x);
  }

  /** Delete-then-insert leaves exactly the new row for its key and no other key or tenant changed. */
  lemma {:induction false} OfKeyReplaced(rows: seq<Row<AuthEntry>>, x: Row<AuthEntry>)
    ensures forall e', k' {:trigger OfKey(ExceptKey(rows, x.empresaId, x.data.key) + [x], e', k')} ::
      OfKey(ExceptKey(rows, x.empresaId, x.data.key) + [x], e', k') ==
        if e' == x.empresaId && k' == x.data.key then [x] else OfKey(rows, e', k')
  {
    var kept := ExceptKey(rows, x.empresaId, x.data.key);
    OfKeyExceptKey(rows, x.empresaId, x.data.key);
    OfKeyAppend(kept, [x]);
    OfKeyOne(x);
  }

  lemma ReplaceKeyRow(rows: seq<Row<AuthEntry>>, x: Row<AuthEntry>)
    requires OnePerKey(rows)
    ensures OfKey(ExceptKey(rows, x.empresaId, x.data.key) + [x], x.empresaId, x.data.key) == [x]
    ensures forall e', k' :: e' != x.empresaId || k' != x.data.key ==>
      OfKey(ExceptKey(rows, x.empresaId, x.data.key) + [x], e', k') == OfKey(rows, e', k')
    ensures forall e' :: e' != x.empresaId ==>
      OfTenant(ExceptKey(rows, x.empresaId, x.data.key) + [x], e') == OfTenant(rows, e')
    ensures OnePerKey(ExceptKey(rows, x.empresaId, x.data.key) + [x])
  {
    var kept := ExceptKey(rows, x.empresaId, x.data.key);
    OfKeyReplaced(rows, x);
    OfTenantExceptKey(rows, x.empresaId, x.data.key);
    OfTenantAppend(kept, [x]);
    OfTenantOne(x);
    forall e', k' ensures |OfKey(kept + [x], e', k')| <= 1 {
      assert |OfKey(rows, e', k')| <= 1;
    }
  }

  // ---------------------------------------------------------------------------
  // The database
  // ---------------------------------------------------------------------------

  /** The database file: the empresas, qr, mensagens and auth tables. */
  class Store {
    var empresas: map<string, nat>
    var qr: seq<Row<Option<string>>>
    var mensagens: seq<Row<StoredMessage>>
    var auth: seq<Row<AuthEntry>>

    /**
     * Every write to qr and auth deletes before it inserts, so a tenant has at
     * most one qr row and a (tenant, key) pair at most one auth row.
     */
    ghost predicate Valid()
      reads this
    {
      OnePerTenant(qr) && OnePerKey(auth)
    }

    /**
     * Opening the database file: CREATE TABLE IF NOT EXISTS keeps the tables
     * the file already holds (a fresh file holds four empty ones).
     */
    constructor (empresas0: map<string, nat>, qr0: seq<Row<Option<string>>>,
                 mensagens0: seq<Row<StoredMessage>>, auth0: seq<Row<AuthEntry>>)
      requires OnePerTenant(qr0) && OnePerKey(auth0)
      ensures Valid()
      ensures empresas == empresas0 && qr == qr0 && mensagens == mensagens0 && auth == auth0
    {
      empresas, qr, mensagens, auth := empresas0, qr0, mensagens0, auth0;
    }

    /** createEmpresa: INSERT OR IGNORE, so an existing tenant keeps its row and createdAt. */
    method CreateEmpresa(e: string, now: nat)
      requires Valid()
      modifies this
      ensures Valid()
      ensures e in empresas
      ensures e in old(empresas) ==> empresas == old(empresas)
      ensures e !in old(empresas) ==> empresas == old(empresas)[e := now]
      ensures qr == old(qr) && mensagens == old(mensagens) && auth == old(auth)
    {
      if e !in empresas {
        empresas := empresas[e := now];
      }
    }

    /** getQR: the stored qr when it is truthy, null otherwise. */
    function GetQR(e: string): (r: Option<string>)
      reads this
      requires Valid()
      ensures r.Some? ==> r.value != "" && Row(e, r) in qr
      ensures r.None? <==> forall x :: x in qr && x.empresaId == e ==> !TruthyText(x.data)
    {
      var rows := OfTenant(qr, e);
      assert |rows| <= 1;
      assert rows != [] ==> rows[0] in rows;
      if rows != [] && TruthyText(rows[0].data) then rows[0].data else None
    }

    /** saveQR: delete the tenant's qr row, then insert the new one. */
    method SaveQR(e: string, q: Option<string>)
      requires Valid()
      modifies this
      ensures Valid()
      ensures qr == ExceptTenant(old(qr), e) + [Row(e, q)]
      ensures OfTenant(qr, e) == [Row(e, q)]
      ensures forall e' :: e' != e ==> OfTenant(qr, e') == OfTenant(old(qr), e')
      ensures GetQR(e) == if TruthyText(q) then q else None
      ensures empresas == old(empresas) && mensagens == old(mensagens) && auth == old(auth)
    {
      ReplaceTenantRow(qr, Row(e, q));
      qr := ExceptTenant(qr, e) + [Row(e, q)];
    }

    /** saveMessage: append one row; a falsy msg.id is stored as NULL. */
    method SaveMessage(e: string, msg: Message, now: nat)
      requires Valid()
      modifies this
      ensures Valid()
      ensures mensagens == old(mensagens) + [Row(e, StoredMessage(
        if TruthyText(msg.id) then msg.id else None, msg.from, msg.to, msg.body, now))]
      ensures OfTenant(mensagens, e) == OfTenant(old(mensagens), e) + [mensagens[|mensagens| - 1]]
      ensures forall e' :: e' != e ==> OfTenant(mensagens, e') == OfTenant(old(mensagens), e')
      ensures empresas == old(empresas) && qr == old(qr) && auth == old(auth)
    {
      var row := Row(e, StoredMessage(if TruthyText(msg.id) then msg.id else None, msg.from, msg.to, msg.body, now));
      OfTenantAppend(mensagens, [row]);
      OfTenantOne(row);
      mensagens := mensagens + [row];
    }

    /** listMessages: exactly the tenant's rows, newest createdAt first. */
    function ListMessages(e: string): (r: seq<Row<StoredMessage>>)
      reads this
      ensures forall x :: x in r <==> x in mensagens && x.empresaId == e
      ensures multiset(r) == multiset(OfTenant(mensagens, e))
      ensures NewestFirst(r)
    {
      var rows := OfTenant(mensagens, e);
      var r := SortNewest(rows);
      SortNewestPermutes(rows);
      assert forall x :: x in r <==> x in rows by {
        forall x ensures x in r <==> x in rows {
          assert x in r <==> x in multiset(r);
          assert x in rows <==> x in multiset(rows);
        }
      }
      r
    }

    /** resetEmpresa: delete the tenant's auth, mensagens and qr rows; empresas is untouched. */
    method ResetEmpresa(e: string)
      requires Valid()
      modifies this
      ensures Valid()
      ensures auth == ExceptTenant(old(auth), e)
      ensures mensagens == ExceptTenant(old(mensagens), e)
      ensures qr == ExceptTenant(old(qr), e)
      ensures empresas == old(empresas)
      ensures GetQR(e) == None && ListMessages(e) == []
      ensures forall k :: AuthGet(e, k) == JNull
      ensures forall e', k :: e' != e ==> AuthGet(e', k) == old(AuthGet(e', k))
    {
      OfKeyExceptTenant(auth, e);
      OfTenantExceptTenant(qr, e);
      OfTenantExceptTenant(mensagens, e);
      assert OnePerKey(ExceptTenant(auth, e)) by {
        forall e', k ensures |OfKey(ExceptTenant(auth, e), e', k)| <= 1 {
          assert |OfKey(auth, e', k)| <= 1;
        }
      }
      assert OnePerTenant(ExceptTenant(qr, e)) by {
        forall e' ensures |OfTenant(ExceptTenant(qr, e), e')| <= 1 {
          assert |OfTenant(qr, e')| <= 1;
        }
      }
      auth := ExceptTenant(auth, e);
      mensagens := ExceptTenant(mensagens, e);
      qr := ExceptTenant(qr, e);
    }

    /** authStore.get: the stored value, or null when the pair has no row. */
    function AuthGet(e: string, k: string): (r: Json)
      reads this
      requires Valid()
      ensures OfKey(auth, e, k) == [] ==> r == JNull
      ensures forall x :: x in auth && x.empresaId == e && x.data.key == k ==> r == x.data.value
    {
      var rows := OfKey(auth, e, k);
      assert |rows| <= 1;
      Lookup(auth, e, k)
    }

    /** authStore.set: delete the pair's row, then insert the new value. */
    method AuthSet(e: string, k: string, v: Json)
      requires Valid()
      modifies this
      ensures Valid()
      ensures auth == ExceptKey(old(auth), e, k) + [Row(e, AuthEntry(k, v))]
      ensures OfKey(auth, e, k) == [Row(e, AuthEntry(k, v))]
      ensures AuthGet(e, k) == v
      ensures forall e', k' :: e' != e || k' != k ==> AuthGet(e', k') == old(AuthGet(e', k'))
      ensures forall e' :: e' != e ==> OfTenant(auth, e') == OfTenant(old(auth), e')
      ensures empresas == old(empresas) && qr == old(qr) && mensagens == old(mensagens)
    {
      ReplaceKeyRow(auth, Row(e, AuthEntry(k, v)));
      auth := ExceptKey(auth, e, k) + [Row(e, AuthEntry(k, v))];
    }

    /** authStore.delete: remove the pair's row and nothing else. */
    method AuthDelete(e: string, k: string)
      requires Valid()
      modifies this
      ensures Valid()
      ensures auth == ExceptKey(old(auth), e, k)
      ensures AuthGet(e, k) == JNull
      ensures forall e', k' :: e' != e || k' != k ==> AuthGet(e', k') == old(AuthGet(e', k'))
      ensures empresas == old(empresas) && qr == old(qr) && mensagens == old(mensagens)
    {
      OfKeyExceptKey(auth, e, k);
      assert OnePerKey(ExceptKey(auth, e, k)) by {
        forall e', k' ensures |OfKey(ExceptKey(auth, e, k), e', k')| <= 1 {
          assert |OfKey(auth, e', k')| <= 1;
        }
      }
      auth := ExceptKey(auth, e, k);
    }
  }
}
