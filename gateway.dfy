/**
 * The gateway process of index.js: the in-memory registry of sockets, the
 * `sessions` and `messages` tables of its own SQLite file, the handlers for
 * the socket's `connection.update` and `messages.upsert` events, and the
 * HTTP handlers that start, restore and delete sessions, send text and page
 * through stored messages.
 *
 * Sockets are opaque tokens numbered in creation order. Every foreign call
 * becomes a parameter: whether useMultiFileAuthState and makeWASocket
 * succeed (`authLoads`), what QRCode.toDataURL returns (`dataUrl`), what
 * JSON.stringify returns (`Content.serialized`) and the clock (`now`).
 */
module Gateway {
  import opened Values

  /** The WhatsApp user-address suffix appended by the send handler. */
  const Suffix := "@s.whatsapp.net"
  /** DisconnectReason.loggedOut of the socket library. */
  const LoggedOut := 401
  /** Delay of the reconnect scheduled after a transient close. */
  const ReconnectDelayMs := 3000
  /** Length of the serialization kept for a message without text. */
  const BodyLimit := 800

  // ---------------------------------------------------------------------------
  // Recipient addresses
  // ---------------------------------------------------------------------------

  /** t occurs in s starting at index i. */
  predicate OccursAt(s: string, t: string, i: int)
  {
    0 <= i && i + |t| <= |s| && s[i..i + |t|] == t
  }

  /**
   * String.prototype.includes: a match needs a pattern no longer than the
   * text, and a pattern the text starts with is found.
   */
  function Contains(s: string, t: string): (r: bool)
    ensures r ==> |t| <= |s|
    ensures t <= s ==> r
    decreases |s|
  {
    if |s| < |t| then false
    else if s[..|t|] == t then true
    else Contains(s[1..], t)
  }

  /** includes is true exactly when the pattern occurs somewhere. */
  lemma {:induction false} ContainsIff(s: string, t: string)
    ensures Contains(s, t) <==> exists i :: OccursAt(s, t, i)
    decreases |s|
  {
    if |s| < |t| {
    } else if s[..|t|] == t {
      assert OccursAt(s, t, 0);
    } else {
      ContainsIff(s[1..], t);
      forall i | OccursAt(s[1..], t, i)
        ensures OccursAt(s, t, i + 1)
      {
        assert s[1..][i..i + |t|] == s[i + 1..i + 1 + |t|];
      }
      forall i | OccursAt(s, t, i)
        ensures OccursAt(s[1..], t, i - 1)
      {
        assert i != 0;
        assert s[1..][i - 1..i - 1 + |t|] == s[i..i + |t|];
      }
    }
  }

  /**
   * The send handler's recipient: kept if it already names the suffix, else
   * suffixed. The input is always kept as the start of the address, at most
   * the suffix is added, and the address always names the suffix.
   */
  function Normalize(to: string): (r: string)
    ensures to <= r
    ensures |r| <= |to| + |Suffix|
    ensures Contains(r, Suffix)
  {
    if Contains(to, Suffix) then to
    else
      ContainsIff(to + Suffix, Suffix);
      assert OccursAt(to + Suffix, Suffix, |to|) by {
        assert (to + Suffix)[|to|..|to| + |Suffix|] == Suffix;
      }
      to + Suffix
  }

  /**
   * The normalized address always carries the suffix, is the input itself
   * when the input carries it, and is the input with the suffix appended
   * once otherwise.
   */
  lemma NormalizeSpec(to: string)
    ensures exists i :: OccursAt(Normalize(to), Suffix, i)
    ensures (exists i :: OccursAt(to, Suffix, i)) ==> Normalize(to) == to
    ensures (forall i :: !OccursAt(to, Suffix, i)) ==> Normalize(to) == to + Suffix
  {
    ContainsIff(to, Suffix);
    if Contains(to, Suffix) {
      assert Normalize(to) == to;
    } else {
      assert Normalize(to) == to + Suffix;
      assert (to + Suffix)[|to|..|to| + |Suffix|] == Suffix;
      assert OccursAt(Normalize(to), Suffix, |to|);
    }
  }

  /** Normalizing twice is normalizing once. */
  lemma NormalizeIdempotent(to: string)
    ensures Normalize(Normalize(to)) == Normalize(to)
  {
    NormalizeSpec(to);
    NormalizeSpec(Normalize(to));
  }

  /** Only the suffix is added: a bare number keeps its punctuation and spaces. */
  lemma NormalizeKeepsNonDigits()
    ensures Normalize("+1 555-0100") == "+1 555-0100@s.whatsapp.net"
  {
    assert !Contains("+1 555-0100", Suffix);
  }

  // ---------------------------------------------------------------------------
  // Inbound messages
  // ---------------------------------------------------------------------------

  /** The part of msg.key the handler reads. */
  datatype MessageKey = MessageKey(fromMe: bool, remoteJid: Option<string>)

  /**
   * The part of msg.message the handler reads: `conversation`,
   * `extendedTextMessage?.text`, `imageMessage?.caption`, and what
   * JSON.stringify makes of the whole content.
   */
  datatype Content = Content(
    conversation: Option<string>,
    extendedText: Option<string>,
    imageCaption: Option<string>,
    serialized: string)

  /** One element of a messages.upsert batch; either part may be missing. */
  datatype InboundMessage = InboundMessage(key: Option<MessageKey>, message: Option<Content>)

  /** The remote address and text body of one stored inbound message. */
  datatype Entry = Entry(remote: Option<string>, text: string)

  /** The text candidates in the order the handler tries them. */
  function Candidates(c: Content): seq<Option<string>>
  {
    [c.conversation, c.extendedText, c.imageCaption]
  }

  /** cs[i] is truthy, equals r, and no candidate before it is truthy. */
  predicate FirstTruthyAt(cs: seq<Option<string>>, i: int, r: Option<string>)
  {
    0 <= i < |cs| && cs[i] == r && TruthyText(r) && forall j :: 0 <= j < i ==> !TruthyText(cs[j])
  }

  /** The first truthy candidate, if any. */
  function FirstTruthy(cs: seq<Option<string>>): (r: Option<string>)
    ensures r.None? <==> forall i :: 0 <= i < |cs| ==> !TruthyText(cs[i])
    ensures r.Some? ==> exists i :: FirstTruthyAt(cs, i, r)
  {
    if cs == [] then None
    else if TruthyText(cs[0]) then assert FirstTruthyAt(cs, 0, cs[0]); cs[0]
    else
      var r := FirstTruthy(cs[1..]);
      assert forall i :: 1 <= i < |cs| ==> cs[1..][i - 1] == cs[i];
      assert r.Some? ==> exists i :: FirstTruthyAt(cs, i, r) by {
        if r.Some? {
          var i :| FirstTruthyAt(cs[1..], i, r);
          assert cs[i + 1] == r;
          forall j | 0 <= j < i + 1 ensures !TruthyText(cs[j]) {
            if j > 0 { assert cs[j] == cs[1..][j - 1]; }
          }
          assert FirstTruthyAt(cs, i + 1, r);
        }
      }
      r
  }

  /** The first `n` characters of s, as String.prototype.slice(0, n). */
  function Prefix(s: string, n: nat): (r: string)
    ensures r <= s
    ensures |r| == if |s| <= n then |s| else n
  {
    if |s| <= n then s else s[..n]
  }

  /**
   * The text the handler stores for a message content: the value of a
   * non-empty text candidate, or a start of the serialization no longer than
   * 800 characters.
   */
  function BodyText(c: Content): (r: string)
    ensures (exists i :: 0 <= i < |Candidates(c)| && Candidates(c)[i] == Some(r) && r != "") ||
            (r <= c.serialized && |r| <= BodyLimit)
  {
    match FirstTruthy(Candidates(c))
    case Some(t) => t
    case None => Prefix(c.serialized, BodyLimit)
  }

  /**
   * The stored text is the first non-empty of conversation, extended text and
   * image caption; when none is, it is the start of the serialization, at
   * most 800 characters long.
   */
  lemma BodyTextPriority(c: Content)
    ensures TruthyText(c.conversation) ==> BodyText(c) == c.conversation.value
    ensures !TruthyText(c.conversation) && TruthyText(c.extendedText) ==> BodyText(c) == c.extendedText.value
    ensures !TruthyText(c.conversation) && !TruthyText(c.extendedText) && TruthyText(c.imageCaption) ==>
      BodyText(c) == c.imageCaption.value
    ensures !TruthyText(c.conversation) && !TruthyText(c.extendedText) && !TruthyText(c.imageCaption) ==>
      |BodyText(c)| <= BodyLimit && BodyText(c) <= c.serialized &&
      |BodyText(c)| == if |c.serialized| <= BodyLimit then |c.serialized| else BodyLimit
  {
    var cs := Candidates(c);
    var r := FirstTruthy(cs);
    if r.Some? {
      var i :| FirstTruthyAt(cs, i, r);
      assert cs[0] == c.conversation && cs[1] == c.extendedText && cs[2] == c.imageCaption;
    } else {
      assert cs[0] == c.conversation && cs[1] == c.extendedText && cs[2] == c.imageCaption;
    }
  }

  /** The handler stores a message: it has content and a key, and the key is not fromMe. */
  predicate Kept(m: InboundMessage)
  {
    m.message.Some? && m.key.Some? && !m.key.value.fromMe
  }

  /** What is stored for a kept message. */
  function EntryOf(m: InboundMessage): Entry
    requires Kept(m)
  {
    Entry(m.key.value.remoteJid, BodyText(m.message.value))
  }

  /** The entries a `notify` batch stores, in batch order. */
  function Accepted(batch: seq<InboundMessage>): (r: seq<Entry>)
    ensures |r| <= |batch|
  {
    if batch == [] then []
    else
      var init, last := batch[..|batch| - 1], batch[|batch| - 1];
      Accepted(init) + if Kept(last) then [EntryOf(last)] else []
  }

  /** Every stored entry is what some kept message of the batch stores. */
  lemma {:induction false} AcceptedFromKept(batch: seq<InboundMessage>)
    ensures forall x :: x in Accepted(batch) ==> exists m :: m in batch && Kept(m) && x == EntryOf(m)
    decreases |batch|
  {
    if batch != [] {
      var init, last := batch[..|batch| - 1], batch[|batch| - 1];
      assert batch == init + [last];
      AcceptedFromKept(init);
      forall x | x in Accepted(batch) ensures exists m :: m in batch && Kept(m) && x == EntryOf(m) {
        if x in Accepted(init) {
          var m :| m in init && Kept(m) && x == EntryOf(m);
          assert m in batch;
        } else {
          assert last in batch && Kept(last) && x == EntryOf(last);
        }
      }
    }
  }

  /** A batch split in two stores the entries of each part, in order. */
  lemma {:induction false} AcceptedAppend(a: seq<InboundMessage>, b: seq<InboundMessage>)
    ensures Accepted(a + b) == Accepted(a) + Accepted(b)
    decreases |b|
  {
    if b == [] {
      assert a + b == a;
    } else {
      var init, last := b[..|b| - 1], b[|b| - 1];
      assert b == init + [last];
      assert a + b == (a + init) + [last];
      AcceptedAppend(a, init);
    }
  }

  /** A single message stores one entry when kept and nothing otherwise. */
  lemma AcceptedOne(m: InboundMessage)
    ensures Accepted([m]) == if Kept(m) then [EntryOf(m)] else []
  {
    assert [m][..0] == [];
  }

  /** The entries of one more message of a batch follow those of the messages before it. */
  lemma AcceptedStep(batch: seq<InboundMessage>, i: nat)
    requires i < |batch|
    ensures Accepted(batch[..i + 1]) == Accepted(batch[..i]) + if Kept(batch[i]) then [EntryOf(batch[i])] else []
  {
    assert batch[..i + 1] == batch[..i] + [batch[i]];
    AcceptedAppend(batch[..i], [batch[i]]);
    AcceptedOne(batch[i]);
  }

  /** Messages sent from this account, without content or without a key store nothing. */
  lemma {:induction false} AcceptedSkipsUnkept(batch: seq<InboundMessage>)
    requires forall m :: m in batch ==> !Kept(m)
    ensures Accepted(batch) == []
    decreases |batch|
  {
    if batch != [] {
      var init := batch[..|batch| - 1];
      assert batch == init + [batch[|batch| - 1]];
      AcceptedSkipsUnkept(init);
    }
  }

  // ---------------------------------------------------------------------------
  // The messages table and its pagination
  // ---------------------------------------------------------------------------

  /** A row of `messages`; `id` is the AUTOINCREMENT key. */
  datatype MessageRow = MessageRow(id: nat, sessionId: string, remote: Option<string>, message: string, timestamp: nat)

  /** Row ids grow strictly along the log. */
  ghost predicate IdsIncreasing(log: seq<MessageRow>)
  {
    forall i, j :: 0 <= i < j < |log| ==> log[i].id < log[j].id
  }

  /** The rows appended for entries es, numbered from last + 1 on. */
  function Logged(last: nat, sid: string, es: seq<Entry>, now: nat): (r: seq<MessageRow>)
    ensures |r| == |es|
  {
    if es == [] then []
    else
      var init, e := es[..|es| - 1], es[|es| - 1];
      Logged(last, sid, init, now) + [MessageRow(last + |es|, sid, e.remote, e.text, now)]
  }

  /** Row j of the appended rows stores entry j under id last + j + 1. */
  lemma {:induction false} LoggedRows(last: nat, sid: string, es: seq<Entry>, now: nat)
    ensures forall j :: 0 <= j < |es| ==>
      Logged(last, sid, es, now)[j] == MessageRow(last + j + 1, sid, es[j].remote, es[j].text, now)
    decreases |es|
  {
    if es != [] {
      LoggedRows(last, sid, es[..|es| - 1], now);
    }
  }

  /** One more entry appends one more row, numbered after the others. */
  lemma LoggedStep(last: nat, sid: string, es: seq<Entry>, e: Entry, now: nat)
    ensures Logged(last, sid, es + [e], now) == Logged(last, sid, es, now) + [MessageRow(last + |es| + 1, sid, e.remote, e.text, now)]
  {
    assert (es + [e])[..|es|] == es;
  }

  /** A row numbered above every id of an increasing log keeps it increasing. */
  lemma AppendKeepsIncreasing(log: seq<MessageRow>, row: MessageRow, last: nat)
    requires IdsIncreasing(log)
    requires forall i :: 0 <= i < |log| ==> log[i].id <= last
    requires row.id == last + 1
    ensures IdsIncreasing(log + [row])
    ensures forall i :: 0 <= i < |log + [row]| ==> (log + [row])[i].id <= last + 1
  {
  }

  /**
   * One step of the upsert loop: if the log held the rows of the first i
   * messages and message i was stored (or skipped), it holds those of the
   * first i + 1.
   */
  lemma UpsertStep(base: seq<MessageRow>, start: nat, sid: string, batch: seq<InboundMessage>, i: nat, now: nat,
                   prev: seq<MessageRow>, prevId: nat, next: seq<MessageRow>, nextId: nat)
    requires i < |batch|
    requires prev == base + Logged(start, sid, Accepted(batch[..i]), now)
    requires prevId == start + |Accepted(batch[..i])|
    requires Kept(batch[i]) ==>
      next == prev + [MessageRow(prevId + 1, sid, EntryOf(batch[i]).remote, EntryOf(batch[i]).text, now)] &&
      nextId == prevId + 1
    requires !Kept(batch[i]) ==> next == prev && nextId == prevId
    ensures next == base + Logged(start, sid, Accepted(batch[..i + 1]), now)
    ensures nextId == start + |Accepted(batch[..i + 1])|
  {
    var es := Accepted(batch[..i]);
    AcceptedStep(batch, i);
    if !Kept(batch[i]) {
      assert Accepted(batch[..i + 1]) == es;
    } else {
      var e := EntryOf(batch[i]);
      var row := MessageRow(start + |es| + 1, sid, e.remote, e.text, now);
      assert Accepted(batch[..i + 1]) == es + [e];
      LoggedStep(start, sid, es, e, now);
      assert next == (base + Logged(start, sid, es, now)) + [row];
      assert next == base + (Logged(start, sid, es, now) + [row]);
    }
  }

  /** WHERE session_id = sid, in id order. */
  function SessionRows(log: seq<MessageRow>, sid: string): (r: seq<MessageRow>)
    ensures |r| <= |log|
    ensures forall x {:trigger x in r} {:trigger x in log} :: x in r <==> x in log && x.sessionId == sid
  {
    if log == [] then []
    else
      var init, last := log[..|log| - 1], log[|log| - 1];
      assert log == init + [last];
      SessionRows(init, sid) + if last.sessionId == sid then [last] else []
  }

  /** The rows of one session keep the log's increasing ids. */
  lemma {:induction false} SessionRowsIncreasing(log: seq<MessageRow>, sid: string)
    requires IdsIncreasing(log)
    ensures IdsIncreasing(SessionRows(log, sid))
    decreases |log|
  {
    if log != [] {
      var init, last := log[..|log| - 1], log[|log| - 1];
      assert log == init + [last];
      SessionRowsIncreasing(init, sid);
      forall x | x in SessionRows(init, sid) ensures x.id < last.id {
        assert x in init;
      }
    }
  }

  /** The sequence backwards. */
  function Reverse<T>(s: seq<T>): (r: seq<T>)
    ensures |r| == |s|
    ensures forall i :: 0 <= i < |s| ==> r[i] == s[|s| - 1 - i]
  {
    if s == [] then [] else [s[|s| - 1]] + Reverse(s[..|s| - 1])
  }

  /** LIMIT limit OFFSET offset: skip `offset` elements and keep at most `limit` of the rest, in order. */
  function Window<T>(s: seq<T>, limit: nat, offset: nat): (r: seq<T>)
    ensures |r| == if offset >= |s| then 0 else if offset + limit >= |s| then |s| - offset else limit
    ensures forall i :: 0 <= i < |r| ==> r[i] == s[offset + i]
  {
    if offset >= |s| then []
    else if offset + limit >= |s| then s[offset..]
    else s[offset..offset + limit]
  }

  /** SELECT * FROM messages WHERE session_id = sid ORDER BY id DESC LIMIT limit OFFSET offset. */
  function Page(log: seq<MessageRow>, sid: string, limit: nat, offset: nat): (r: seq<MessageRow>)
    ensures |r| <= limit
  {
    Window(Reverse(SessionRows(log, sid)), limit, offset)
  }

  /**
   * Row i of a page is the session's row offset + i places from its newest,
   * and a page is as long as the rows left after the offset allow, up to
   * `limit`.
   */
  lemma PageRows(log: seq<MessageRow>, sid: string, limit: nat, offset: nat)
    ensures var n := |SessionRows(log, sid)|;
      |Page(log, sid, limit, offset)| == if offset >= n then 0 else if offset + limit >= n then n - offset else limit
    ensures forall i :: 0 <= i < |Page(log, sid, limit, offset)| ==>
      Page(log, sid, limit, offset)[i] == SessionRows(log, sid)[|SessionRows(log, sid)| - 1 - offset - i]
  {
  }

  /** A page holds only rows of the session, and no more than `limit` of them. */
  lemma PageSpec(log: seq<MessageRow>, sid: string, limit: nat, offset: nat)
    ensures forall x :: x in Page(log, sid, limit, offset) ==> x in log && x.sessionId == sid
    ensures |Page(log, sid, limit, offset)| <= limit
  {
    var rows := SessionRows(log, sid);
    var p := Page(log, sid, limit, offset);
    PageRows(log, sid, limit, offset);
    forall x | x in p ensures x in rows {
      var k :| 0 <= k < |p| && p[k] == x;
      var j := |rows| - 1 - offset - k;
      assert x == rows[j];
    }
  }

  /** Over a log with increasing ids, a page lists its rows in strictly decreasing id order. */
  lemma PageDescending(log: seq<MessageRow>, sid: string, limit: nat, offset: nat)
    requires IdsIncreasing(log)
    ensures forall i, j :: 0 <= i < j < |Page(log, sid, limit, offset)| ==>
      Page(log, sid, limit, offset)[i].id > Page(log, sid, limit, offset)[j].id
  {
    var rows := SessionRows(log, sid);
    var p := Page(log, sid, limit, offset);
    SessionRowsIncreasing(log, sid);
    PageRows(log, sid, limit, offset);
    forall i, j | 0 <= i < j < |p| ensures p[i].id > p[j].id {
      assert p[i] == rows[|rows| - 1 - offset - i];
      assert p[j] == rows[|rows| - 1 - offset - j];
    }
  }

  /** Two consecutive pages together are the page that spans both. */
  lemma PageSplit(log: seq<MessageRow>, sid: string, a: nat, b: nat, offset: nat)
    ensures Page(log, sid, a, offset) + Page(log, sid, b, offset + a) == Page(log, sid, a + b, offset)
  {
    var s := Reverse(SessionRows(log, sid));
    if offset < |s| && offset + a < |s| {
      if offset + a + b >= |s| {
        assert s[offset..offset + a] + s[offset + a..] == s[offset..];
      } else {
        assert s[offset..offset + a] + s[offset + a..offset + a + b] == s[offset..offset + a + b];
      }
    }
  }

  /** A page from the start that is large enough holds every row of the session. */
  lemma PageAll(log: seq<MessageRow>, sid: string, limit: nat)
    requires limit >= |SessionRows(log, sid)|
    ensures multiset(Page(log, sid, limit, 0)) == multiset(SessionRows(log, sid))
  {
    var rows := SessionRows(log, sid);
    ReverseSameElements(rows);
    if rows != [] {
      assert Reverse(rows)[0..] == Reverse(rows);
    }
  }

  /** Reversing keeps every element with its multiplicity. */
  lemma {:induction false} ReverseSameElements<T>(s: seq<T>)
    ensures multiset(Reverse(s)) == multiset(s)
    decreases |s|
  {
    if s != [] {
      var init := s[..|s| - 1];
      assert s == init + [s[|s| - 1]];
      ReverseSameElements(init);
      assert Reverse(s) == [s[|s| - 1]] + Reverse(init);
    }
  }

  /** Three messages of one session, read one per page, come back newest first. */
  lemma PageExample(m1: MessageRow, m2: MessageRow, m3: MessageRow)
    requires m1.sessionId == m2.sessionId == m3.sessionId
    ensures Page([m1, m2, m3], m1.sessionId, 2, 0) == [m3, m2]
    ensures Page([m1, m2, m3], m1.sessionId, 2, 2) == [m1]
  {
    var sid := m1.sessionId;
    assert SessionRows([m1], sid) == [m1] by { assert [m1][..0] == []; }
    assert SessionRows([m1, m2], sid) == [m1, m2] by { assert [m1, m2][..1] == [m1]; }
    assert SessionRows([m1, m2, m3], sid) == [m1, m2, m3] by { assert [m1, m2, m3][..2] == [m1, m2]; }
    assert Reverse([m1, m2, m3]) == [m3, m2, m1] by {
      assert [m1, m2, m3][..2] == [m1, m2];
      assert [m1, m2][..1] == [m1];
    }
  }

  // ---------------------------------------------------------------------------
  // Sessions, events and handlers
  // ---------------------------------------------------------------------------

  /** A socket, known only by the order in which it was created. */
  datatype Socket = Socket(serial: nat)

  /** A row of `sessions`: the QR data URL (NULL once connected) and its time. */
  datatype SessionRow = SessionRow(qr: Option<string>, createdAt: nat)

  /** The `connection` field of a connection.update event; Unchanged when absent. */
  datatype Connection = Connecting | Open | Close | Unchanged

  /** A connection.update event: a fresh QR, a connection state, the close's status code. */
  datatype ConnectionUpdate = ConnectionUpdate(qr: Option<string>, connection: Connection, statusCode: Option<int>)

  /** A reconnect handed to setTimeout and not yet run. */
  datatype Reconnect = Reconnect(sessionId: string, delayMs: nat)

  /** What the send handler answers. */
  datatype SendOutcome =
    | BadRequest
    | Failed
    | Dispatched(sock: Socket, jid: string, text: string)

  /** The gateway process: its registry, its tables and its pending timers. */
  class Server {
    /** The in-memory `sessions` object: session id to socket. */
    var registry: map<string, Socket>
    /** The `sessions` table (id is its PRIMARY KEY). */
    var sessions: map<string, SessionRow>
    /** The `messages` table in rowid order. */
    var messages: seq<MessageRow>
    /** The largest AUTOINCREMENT id handed out. */
    var lastMessageId: nat
    /** Reconnects scheduled and not yet run. */
    var pending: multiset<Reconnect>
    /** Sockets created so far. */
    var socketsOpened: nat

    /** Message ids grow with insertion order; registered sockets are ones created. */
    ghost predicate Valid()
      reads this
    {
      IdsIncreasing(messages) &&
      (forall i :: 0 <= i < |messages| ==> messages[i].id <= lastMessageId) &&
      (forall id :: id in registry ==> registry[id].serial < socketsOpened)
    }

    /**
     * Start of the process: the `sessions` and `messages` tables and the
     * AUTOINCREMENT counter are whatever the database file already holds
     * (CREATE TABLE IF NOT EXISTS keeps them; a fresh file has none); the
     * registry and the timers start empty.
     */
    constructor (sessions0: map<string, SessionRow>, messages0: seq<MessageRow>, lastId0: nat)
      requires IdsIncreasing(messages0)
      requires forall i :: 0 <= i < |messages0| ==> messages0[i].id <= lastId0
      ensures Valid()
      ensures sessions == sessions0 && messages == messages0 && lastMessageId == lastId0
      ensures registry == map[] && pending == multiset{} && socketsOpened == 0
    {
      registry := map[];
      sessions := sessions0;
      messages := messages0;
      lastMessageId := lastId0;
      pending := multiset{};
      socketsOpened := 0;
    }

    /**
     * createClient: return the registered socket, or create one and register
     * it. `authLoads` is whether loading the auth folder and creating the
     * socket succeed; when they do not, the call rejects and nothing changes.
     */
    method CreateClient(id: string, authLoads: bool) returns (r: Option<Socket>)
      requires Valid()
      modifies this
      ensures Valid()
      ensures id in old(registry) ==> r == Some(old(registry)[id]) && registry == old(registry) && socketsOpened == old(socketsOpened)
      ensures id !in old(registry) && authLoads ==>
        r == Some(Socket(old(socketsOpened))) && r.value !in old(registry).Values &&
        registry == old(registry)[id := r.value] && socketsOpened == old(socketsOpened) + 1
      ensures id !in old(registry) && !authLoads ==> r == None && registry == old(registry) && socketsOpened == old(socketsOpened)
      ensures sessions == old(sessions) && messages == old(messages) && lastMessageId == old(lastMessageId)
      ensures pending == old(pending)
    {
      if id in registry {
        return Some(registry[id]);
      }
      if !authLoads {
        return None;
      }
      var sock := Socket(socketsOpened);
      socketsOpened := socketsOpened + 1;
      registry := registry[id := sock];
      r := Some(sock);
    }

    /**
     * The connection.update handler of session id: a QR replaces the row
     * with the new data URL, `open` clears the row's QR, and `close` purges
     * the row and the registry entry when logged out, or drops the registry
     * entry and schedules one reconnect otherwise.
     */
    method HandleConnectionUpdate(id: string, u: ConnectionUpdate, dataUrl: string, now: nat)
      requires Valid()
      modifies this
      ensures Valid()
      ensures var afterQr := if TruthyText(u.qr) then old(sessions)[id := SessionRow(Some(dataUrl), now)] else old(sessions);
        var afterOpen := if u.connection == Open && id in afterQr then afterQr[id := afterQr[id].(qr := None)] else afterQr;
        sessions == if u.connection == Close && u.statusCode == Some(LoggedOut) then afterOpen - {id} else afterOpen
      ensures registry == if u.connection == Close then old(registry) - {id} else old(registry)
      ensures pending == if u.connection == Close && u.statusCode != Some(LoggedOut)
        then old(pending) + multiset{Reconnect(id, ReconnectDelayMs)} else old(pending)
      ensures messages == old(messages) && lastMessageId == old(lastMessageId) && socketsOpened == old(socketsOpened)
    {
      if TruthyText(u.qr) {
        sessions := sessions[id := SessionRow(Some(dataUrl), now)];
      }
      if u.connection == Open {
        if id in sessions {
          sessions := sessions[id := sessions[id].(qr := None)];
        }
      }
      if u.connection == Close {
        var loggedOut := u.statusCode == Some(LoggedOut);
        if loggedOut {
          sessions := sessions - {id};
          registry := registry - {id};
        } else {
          registry := registry - {id};
          pending := pending + multiset{Reconnect(id, ReconnectDelayMs)};
        }
      }
    }

    /**
     * The messages.upsert handler of session id: a `notify` batch appends
     * one row per kept message, in batch order; other batches store nothing.
     */
    method HandleMessagesUpsert(id: string, batchType: string, batch: seq<InboundMessage>, now: nat)
      requires Valid()
      modifies this
      ensures Valid()
      ensures batchType != "notify" ==> messages == old(messages) && lastMessageId == old(lastMessageId)
      ensures batchType == "notify" ==>
        messages == old(messages) + Logged(old(lastMessageId), id, Accepted(batch), now) &&
        lastMessageId == old(lastMessageId) + |Accepted(batch)|
      ensures registry == old(registry) && sessions == old(sessions) && pending == old(pending)
      ensures socketsOpened == old(socketsOpened)
    {
      if batchType != "notify" {
        return;
      }
      ghost var start, base := lastMessageId, messages;
      for i := 0 to |batch|
        invariant Valid()
        invariant messages == base + Logged(start, id, Accepted(batch[..i]), now)
        invariant lastMessageId == start + |Accepted(batch[..i])|
        invariant registry == old(registry) && sessions == old(sessions) && pending == old(pending)
        invariant socketsOpened == old(socketsOpened)
      {
        ghost var prev, prevId := messages, lastMessageId;
        StoreInbound(id, batch[i], now);
        UpsertStep(base, start, id, batch, i, now, prev, prevId, messages, lastMessageId);
      }
      assert batch[..|batch|] == batch;
    }

    /**
     * One message of a `notify` batch: skipped without content, when sent
     * from this account, or when it has no key (reading its remoteJid throws
     * and the handler's catch swallows it); stored as the next row otherwise.
     */
    method StoreInbound(id: string, msg: InboundMessage, now: nat)
      requires Valid()
      modifies this
      ensures Valid()
      ensures Kept(msg) ==>
        messages == old(messages) + [MessageRow(old(lastMessageId) + 1, id, EntryOf(msg).remote, EntryOf(msg).text, now)] &&
        lastMessageId == old(lastMessageId) + 1
      ensures !Kept(msg) ==> messages == old(messages) && lastMessageId == old(lastMessageId)
      ensures registry == old(registry) && sessions == old(sessions) && pending == old(pending)
      ensures socketsOpened == old(socketsOpened)
    {
      if msg.message.None? {
        return;
      }
      if msg.key.Some? && msg.key.value.fromMe {
        return;
      }
      var text := BodyText(msg.message.value);
      if msg.key.None? {
        return;
      }
      var row := MessageRow(lastMessageId + 1, id, msg.key.value.remoteJid, text, now);
      AppendKeepsIncreasing(messages, row, lastMessageId);
      messages := messages + [row];
      lastMessageId := lastMessageId + 1;
    }

    /** A scheduled reconnect runs: it leaves the timers and calls createClient, ignoring failure. */
    method FireReconnect(t: Reconnect, authLoads: bool)
      requires Valid()
      requires t in pending
      modifies this
      ensures Valid()
      ensures pending == old(pending) - multiset{t}
      ensures t.sessionId in old(registry) ==> registry == old(registry) && socketsOpened == old(socketsOpened)
      ensures t.sessionId !in old(registry) && authLoads ==>
        registry == old(registry)[t.sessionId := Socket(old(socketsOpened))] && socketsOpened == old(socketsOpened) + 1
      ensures t.sessionId !in old(registry) && !authLoads ==> registry == old(registry) && socketsOpened == old(socketsOpened)
      ensures sessions == old(sessions) && messages == old(messages) && lastMessageId == old(lastMessageId)
    {
      pending := pending - multiset{t};
      var _ := CreateClient(t.sessionId, authLoads);
    }

    /** POST /sessions/start: a falsy id is refused; otherwise createClient. */
    method StartSession(id: Option<string>, authLoads: bool) returns (r: Option<Socket>)
      requires Valid()
      modifies this
      ensures Valid()
      ensures !TruthyText(id) ==> r == None && registry == old(registry) && socketsOpened == old(socketsOpened)
      ensures TruthyText(id) && id.value in old(registry) ==>
        r == Some(old(registry)[id.value]) && registry == old(registry) && socketsOpened == old(socketsOpened)
      ensures TruthyText(id) && id.value !in old(registry) && authLoads ==>
        r == Some(Socket(old(socketsOpened))) && registry == old(registry)[id.value := r.value] &&
        socketsOpened == old(socketsOpened) + 1
      ensures TruthyText(id) && id.value !in old(registry) && !authLoads ==>
        r == None && registry == old(registry) && socketsOpened == old(socketsOpened)
      ensures sessions == old(sessions) && messages == old(messages) && lastMessageId == old(lastMessageId)
      ensures pending == old(pending)
    {
      if !TruthyText(id) {
        return None;
      }
      r := CreateClient(id.value, authLoads);
    }

    /**
     * POST /sessions/:id/restore: drop any registered socket, then create a
     * new one. The registry entry is gone even when creation fails.
     */
    method Restore(id: string, authLoads: bool) returns (r: Option<Socket>)
      requires Valid()
      modifies this
      ensures Valid()
      ensures authLoads ==> (r == Some(Socket(old(socketsOpened))) && r.value !in old(registry).Values &&
        registry == old(registry)[id := r.value] && socketsOpened == old(socketsOpened) + 1)
      ensures !authLoads ==> r == None && registry == old(registry) - {id} && socketsOpened == old(socketsOpened)
      ensures sessions == old(sessions) && messages == old(messages) && lastMessageId == old(lastMessageId)
      ensures pending == old(pending)
    {
      if id in registry {
        registry := registry - {id};
      }
      r := CreateClient(id, authLoads);
      assert authLoads ==> registry == (old(registry) - {id})[id := Socket(old(socketsOpened))];
    }

    /**
     * DELETE /sessions/:id: drop the registry entry, remove the auth folder,
     * then delete the `sessions` row; the session's messages stay.
     * `folderRemoved` is whether removing the auth folder succeeds; when it
     * throws, the handler answers 500 with the registry entry already gone
     * and the row kept.
     */
    method DeleteSession(id: string, folderRemoved: bool) returns (ok: bool)
      requires Valid()
      modifies this
      ensures Valid()
      ensures ok == folderRemoved
      ensures registry == old(registry) - {id} && id !in registry
      ensures ok ==> sessions == old(sessions) - {id} && id !in sessions
      ensures !ok ==> sessions == old(sessions)
      ensures id !in old(registry) && id !in old(sessions) ==> registry == old(registry) && sessions == old(sessions)
      ensures messages == old(messages) && lastMessageId == old(lastMessageId)
      ensures pending == old(pending) && socketsOpened == old(socketsOpened)
    {
      registry := registry - {id};
      if !folderRemoved {
        return false;
      }
      sessions := sessions - {id};
      ok := true;
    }

    /**
     * POST /sessions/:id/send: a falsy `to` or `message` is refused;
     * otherwise the session's socket (created when missing) is handed the
     * text for the normalized address.
     */
    method SendText(id: string, to: Option<string>, message: Option<string>, authLoads: bool) returns (r: SendOutcome)
      requires Valid()
      modifies this
      ensures Valid()
      ensures !TruthyText(to) || !TruthyText(message) ==>
        r == BadRequest && registry == old(registry) && socketsOpened == old(socketsOpened)
      ensures r.Dispatched? ==> (TruthyText(to) && TruthyText(message) &&
        r.jid == Normalize(to.value) && r.text == message.value && id in registry && registry[id] == r.sock)
      ensures TruthyText(to) && TruthyText(message) && id in old(registry) ==>
        r == Dispatched(old(registry)[id], Normalize(to.value), message.value) &&
        registry == old(registry) && socketsOpened == old(socketsOpened)
      ensures TruthyText(to) && TruthyText(message) && id !in old(registry) && authLoads ==>
        r == Dispatched(Socket(old(socketsOpened)), Normalize(to.value), message.value) &&
        registry == old(registry)[id := Socket(old(socketsOpened))] && socketsOpened == old(socketsOpened) + 1
      ensures TruthyText(to) && TruthyText(message) && id !in old(registry) && !authLoads ==>
        r == Failed && registry == old(registry) && socketsOpened == old(socketsOpened)
      ensures sessions == old(sessions) && messages == old(messages) && lastMessageId == old(lastMessageId)
      ensures pending == old(pending)
    {
      if !TruthyText(to) || !TruthyText(message) {
        return BadRequest;
      }
      var sock := CreateClient(id, authLoads);
      if sock.None? {
        return Failed;
      }
      r := Dispatched(sock.value, Normalize(to.value), message.value);
    }

    /** GET /sessions/:id/qr: the row's QR, or null when there is no row. */
    function QrOf(id: string): (r: Option<string>)
      reads this
      ensures id !in sessions ==> r == None
      ensures r.Some? ==> id in sessions && sessions[id].qr == r
    {
      if id in sessions then sessions[id].qr else None
    }

    /** GET /sessions/:id/messages over the current table. */
    function MessagesPage(id: string, limit: nat, offset: nat): (r: seq<MessageRow>)
      reads this
      requires Valid()
      ensures forall x :: x in r ==> x in messages && x.sessionId == id
      ensures |r| <= limit
      ensures forall i, j :: 0 <= i < j < |r| ==> r[i].id > r[j].id
    {
      PageSpec(messages, id, limit, offset);
      PageDescending(messages, id, limit, offset);
      Page(messages, id, limit, offset)
    }
  }

  /**
   * A QR event leaves exactly one row for the session holding the new QR,
   * which GET qr returns; a following `open` keeps the row and clears it.
   */
  method QrThenOpen(s: Server, id: string, qr: string, dataUrl: string, now: nat)
    requires s.Valid()
    requires qr != ""
    modifies s
    ensures s.Valid()
    ensures id in s.sessions && s.sessions[id] == SessionRow(None, now)
    ensures s.QrOf(id) == None
    ensures forall other :: other != id ==> (other in s.sessions <==> other in old(s.sessions))
  {
    s.HandleConnectionUpdate(id, ConnectionUpdate(Some(qr), Unchanged, None), dataUrl, now);
    assert s.QrOf(id) == Some(dataUrl);
    s.HandleConnectionUpdate(id, ConnectionUpdate(None, Open, None), "", now);
  }

  /** Deleting a session twice leaves the state that deleting it once leaves. */
  method DeleteTwice(s: Server, id: string)
    requires s.Valid()
    modifies s
    ensures s.Valid()
    ensures s.registry == old(s.registry) - {id} && s.sessions == old(s.sessions) - {id}
    ensures s.messages == old(s.messages) && s.lastMessageId == old(s.lastMessageId)
    ensures s.pending == old(s.pending) && s.socketsOpened == old(s.socketsOpened)
  {
    var _ := s.DeleteSession(id, true);
    var _ := s.DeleteSession(id, true);
  }
}
