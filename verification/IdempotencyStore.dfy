/**
 * The key-value store behind the idempotency middleware: SET NX EX, GET, SET EX, and expiry.
 *
 * A key disappears only by expiring, at any moment from its expiry instant on.
 */
module IdempotencyStore {
  import opened Prelude
  import opened GoTime
  import opened IdempotencyRecord

  datatype Entry = Entry(value: string, expireAt: int)

  type Db = map<string, Entry>

  /** EX takes whole seconds: the configured TTL loses its fraction of a second. */
  function EffectiveTtl(ttl: int): int {
    ttl / SECOND * SECOND
  }

  /** The configuration accepts only TTLs of at least one second, so no key expires at once. */
  lemma EffectiveTtlBounds(ttl: int)
    requires ttl >= SECOND
    ensures SECOND <= EffectiveTtl(ttl) <= ttl < EffectiveTtl(ttl) + SECOND
    ensures EffectiveTtl(ttl) % SECOND == 0
  {}

  function SetEx(db: Db, key: string, value: string, now: int, ttl: int): Db {
    db[key := Entry(value, now + EffectiveTtl(ttl))]
  }

  function SetNxEx(db: Db, key: string, value: string, now: int, ttl: int): Db {
    if key in db then db else SetEx(db, key, value, now, ttl)
  }

  /** What a reader learns: the absent key is a state of its own. */
  datatype State = Absent | Present(record: Record)

  function Get(db: Db, key: string): State {
    if key in db then Present(DecodeRecord(db[key].value)) else Absent
  }

  /** The store's commands, each at the instant `now` of the store's clock. */
  class ValkeyIdempotencyStore {
    var db: Db

    constructor ()
      ensures db == map[]
    {
      db := map[];
    }

    method Acquire(key: string, ttl: int, now: int, fault: Fault) returns (r: Option<bool>)
      modifies this
      ensures db == if fault == BeforeEffect then old(db) else SetNxEx(old(db), key, IN_PROGRESS, now, ttl)
      ensures key in old(db) || fault == BeforeEffect ==> db == old(db)
      ensures key !in old(db) && fault != BeforeEffect ==>
                db == old(db)[key := Entry("IN_PROGRESS", now + ttl / SECOND * SECOND)]
      ensures r == if fault == NoFault then Some(key !in old(db)) else None
    {
      if fault == BeforeEffect {
        return None;
      }
      var acquired := key !in db;
      if acquired {
        db := db[key := Entry(IN_PROGRESS, now + EffectiveTtl(ttl))];
      }
      r := if fault == NoFault then Some(acquired) else None;
    }

    /**
     * Nothing for an absent key; in progress for a key that was only acquired; and for a completed
     * one exactly the code and the body it was completed with.
     */
    method State(key: string, fault: Fault) returns (r: Option<State>)
      ensures r.Some? <==> fault == NoFault
      ensures r.Some? ==> (r.value == Absent <==> key !in db)
      ensures r.Some? && key in db ==> (r.value == Present(InProgress) <==> db[key].value == IN_PROGRESS)
      ensures r.Some? && key in db ==>
                forall code, body :: MIN_INT64 <= code <= MAX_INT64 && db[key].value == EncodeCompleted(code, body) ==>
                  r.value == Present(Completed(code, body))
      ensures r.Some? ==> r.value == Get(db, key)
    {
      if fault != NoFault {
        return None;
      }
      if key !in db {
        return Some(Absent);
      }
      var value := db[key].value;
      RecordsNeverConfused(value, 0, []);
      forall code, body | MIN_INT64 <= code <= MAX_INT64 && value == EncodeCompleted(code, body)
        ensures DecodeRecord(value) == Completed(code, body)
      {
        RecordRoundTrip(code, body);
      }
      r := Some(Present(DecodeRecord(value)));
    }

    method Complete(key: string, code: int, body: seq<Byte>, ttl: int, now: int, fault: Fault) returns (ok: bool)
      modifies this
      ensures db == if fault == BeforeEffect then old(db)
                    else SetEx(old(db), key, EncodeCompleted(code, body), now, ttl)
      ensures ok <==> fault == NoFault
    {
      if fault != BeforeEffect {
        db := db[key := Entry(EncodeCompleted(code, body), now + EffectiveTtl(ttl))];
      }
      ok := fault == NoFault;
    }
  }

  /**
   * What the writes mean to later readers: a won Acquire reads in progress, a lost one changes
   * nothing, a Complete reads back its own code and body, and no other key is affected.
   */
  lemma WritesReadBack(db: Db, key: string, now: int, ttl: int, code: int, body: seq<Byte>, other: string)
    requires MIN_INT64 <= code <= MAX_INT64 && other != key
    ensures var acquired, completed := SetNxEx(db, key, IN_PROGRESS, now, ttl),
                                       SetEx(db, key, EncodeCompleted(code, body), now, ttl);
            && (if key in db then acquired == db else Get(acquired, key) == Present(InProgress))
            && Get(completed, key) == Present(Completed(code, body))
            && Get(acquired, other) == Get(completed, other) == Get(db, other)
  {
    hide EncodeCompleted;
    RecordRoundTrip(code, body);
    RecordsNeverConfused(IN_PROGRESS, code, body);
  }

  // ----- The response recorder -----------------------------------------------------------------

  const STATUS_OK := 200

  datatype WriterCall = Header(code: int) | Body(bytes: seq<Byte>)

  /** The status a call announces if it is the first one that announces any. */
  function Announces(c: WriterCall): int {
    if c.Header? then c.code else STATUS_OK
  }

  /** The first status announced by the calls, or 0. */
  function FirstStatus(calls: seq<WriterCall>): int {
    if calls == [] then 0
    else if Announces(calls[0]) != 0 then Announces(calls[0])
    else FirstStatus(calls[1..])
  }

  function StatusCode(calls: seq<WriterCall>): int {
    if FirstStatus(calls) == 0 then STATUS_OK else FirstStatus(calls)
  }

  function BytesOf(c: WriterCall): seq<Byte> {
    if c.Body? then c.bytes else []
  }

  /** All the bytes written, in order. */
  function BodyBytes(calls: seq<WriterCall>): seq<Byte> {
    if calls == [] then []
    else BytesOf(calls[0]) + BodyBytes(calls[1..])
  }

  /** The recorder in front of the real writer; `passed` is what the real writer has been given. */
  class RecordingWriter {
    var status: int
    var buf: seq<Byte>
    var passed: seq<WriterCall>

    ghost predicate Valid()
      reads this
    {
      status == FirstStatus(passed) && buf == BodyBytes(passed)
    }

    constructor ()
      ensures Valid() && passed == []
    {
      status, buf, passed := 0, [], [];
    }

    method WriteHeader(code: int)
      requires Valid()
      modifies this
      ensures Valid() && passed == old(passed) + [Header(code)]
    {
      CallsAppend(passed, Header(code));
      if status == 0 {
        status := code;
      }
      passed := passed + [Header(code)];
    }

    method Write(b: seq<Byte>)
      requires Valid()
      modifies this
      ensures Valid() && passed == old(passed) + [Body(b)]
    {
      CallsAppend(passed, Body(b));
      if status == 0 {
        status := STATUS_OK;
      }
      buf := buf + b;
      passed := passed + [Body(b)];
    }

    method Recorded() returns (code: int, body: seq<Byte>)
      requires Valid()
      ensures code == StatusCode(passed) && body == BodyBytes(passed)
    {
      code := if status == 0 then STATUS_OK else status;
      body := buf;
    }
  }

  lemma {:induction false} StatusAppend(calls: seq<WriterCall>, c: WriterCall)
    ensures FirstStatus(calls + [c]) == if FirstStatus(calls) != 0 then FirstStatus(calls) else Announces(c)
  {
    hide Announces;
    if calls == [] {
      assert calls + [c] == [c] && [c][1..] == [] && FirstStatus([]) == 0;
    } else {
      var longer := calls + [c];
      assert longer != [] && longer[0] == calls[0] && longer[1..] == calls[1..] + [c];
      StatusAppend(calls[1..], c);
    }
  }

  lemma Associative<T>(a: seq<T>, b: seq<T>, c: seq<T>)
    ensures a + b + c == a + (b + c)
  {}

  lemma {:induction false} BodyAppend(calls: seq<WriterCall>, c: WriterCall)
    ensures BodyBytes(calls + [c]) == BodyBytes(calls) + BytesOf(c)
  {
    hide BytesOf;
    if calls == [] {
      assert calls + [c] == [c] && [c][1..] == [] && BodyBytes([]) == [];
    } else {
      var longer := calls + [c];
      assert longer != [] && longer[0] == calls[0] && longer[1..] == calls[1..] + [c];
      BodyAppend(calls[1..], c);
      Associative(BytesOf(calls[0]), BodyBytes(calls[1..]), BytesOf(c));
    }
  }

  /** A further call never changes an announced status, and appends exactly its bytes. */
  lemma CallsAppend(calls: seq<WriterCall>, c: WriterCall)
    ensures FirstStatus(calls + [c]) == if FirstStatus(calls) != 0 then FirstStatus(calls) else Announces(c)
    ensures BodyBytes(calls + [c]) == BodyBytes(calls) + if c.Body? then c.bytes else []
  {
    StatusAppend(calls, c);
    BodyAppend(calls, c);
    hide FirstStatus, BodyBytes, Announces;
  }

  /** Without a status the first write announces 200, and so does a handler that writes nothing. */
  lemma DefaultStatus(calls: seq<WriterCall>)
    ensures StatusCode([]) == 200 && BodyBytes([]) == []
    ensures calls != [] && calls[0].Body? ==> StatusCode(calls) == 200
    ensures calls != [] && calls[0].Header? && calls[0].code != 0 ==> StatusCode(calls) == calls[0].code
  {}

  /** A handler that sends one status and then any chunks is recorded as that status and their concatenation. */
  lemma HeaderThenChunks(code: int, chunks: seq<WriterCall>)
    requires code != 0 && forall i :: 0 <= i < |chunks| ==> chunks[i].Body?
    ensures StatusCode([Header(code)] + chunks) == code
    ensures BodyBytes([Header(code)] + chunks) == BodyBytes(chunks)
  {}
}
