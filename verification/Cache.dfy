/** Key namespaces, after `src/cache/namespace.rs`. */
module Namespace {
  import opened Wrappers

  datatype ConfigError = EmptyNamespace | EndsWithSeparator | ContainsControlChar

  predicate IsControl(c: char) { c as int < 0x20 || 0x7F <= c as int < 0xA0 }

  /** A prefix `Namespace::new` accepts. */
  predicate Valid(prefix: string) {
    prefix != [] && prefix[|prefix| - 1] != ':' && forall c <- prefix :: !IsControl(c)
  }

  function New(prefix: string): (r: Result<string, ConfigError>)
    ensures r.Ok? <==> Valid(prefix)
    ensures r.Ok? ==> r.value == prefix
    ensures r == Err(EmptyNamespace) <==> prefix == []
    ensures r == Err(EndsWithSeparator) <==> exists front :: prefix == front + ":"
    ensures r == Err(ContainsControlChar) <==>
      (exists c <- prefix :: IsControl(c)) && !exists front :: prefix == front + ":"
  {
    assert prefix != [] ==> prefix == prefix[..|prefix| - 1] + [prefix[|prefix| - 1]];
    if prefix == [] then Err(EmptyNamespace)
    else if prefix[|prefix| - 1] == ':' then Err(EndsWithSeparator)
    else if exists c <- prefix :: IsControl(c) then Err(ContainsControlChar)
    else Ok(prefix)
  }

  /** The backend key: `prefix:key`, or the key itself without a namespace. */
  function Resolve(ns: string, key: string): string {
    if ns == [] then key else ns + ":" + key
  }

  /** `q` is `p`, a separator, and more. */
  predicate Extends(q: string, p: string) { p + ":" <= q }

  predicate Related(p: string, q: string) { p == q || Extends(p, q) || Extends(q, p) }

  lemma PrefixOfBoth(p: string, q: string, x: string)
    requires p + ":" <= x && q + ":" <= x
    ensures Related(p, q)
  {
    if |p| < |q| {
      assert q[|p|] == (q + ":")[|p|] == x[|p|] == ':';
      assert q[..|p|] == x[..|p|] == p;
    } else if |q| < |p| {
      assert p[|q|] == (p + ":")[|q|] == x[|q|] == ':';
      assert p[..|q|] == x[..|q|] == q;
    } else {
      assert p == x[..|p|] == q;
    }
  }

  lemma ExtensionCollides(p: string, q: string)
    requires p != [] && q != [] && Extends(q, p)
    ensures Resolve(p, q[|p| + 1..] + ":") == Resolve(q, "")
  {
    assert q == p + ":" + q[|p| + 1..];
  }

  /**
   * Two distinct non-empty namespaces share a backend key exactly when one prefix extends the other
   * by a separator: `a` with `b:c` and `a:b` with `c` meet, `a` and `ab` never do.
   */
  lemma NamespacesMeet(p: string, q: string)
    requires p != [] && q != [] && p != q
    ensures (exists k, l :: Resolve(p, k) == Resolve(q, l)) <==> Extends(p, q) || Extends(q, p)
  {
    if k, l :| Resolve(p, k) == Resolve(q, l) {
      PrefixOfBoth(p, q, Resolve(p, k));
    }
    if Extends(q, p) {
      ExtensionCollides(p, q);
    }
    if Extends(p, q) {
      ExtensionCollides(q, p);
    }
  }

  /** Within one namespace distinct keys stay distinct; the prefix comes first, and without one the key stands alone. */
  lemma ResolveInjective(ns: string, k: string, l: string)
    ensures Resolve(ns, k) == Resolve(ns, l) <==> k == l
    ensures ns != [] ==> ns + ":" <= Resolve(ns, k) && |Resolve(ns, k)| == |ns| + 1 + |k|
    ensures Resolve("", k) == k
  {
    if ns != [] {
      assert Resolve(ns, k)[|ns| + 1..] == k && Resolve(ns, l)[|ns| + 1..] == l;
    }
  }
}

/** The typed operations of `src/cache/store.rs` over one shared backend. */
module CacheStore {
  import opened Wrappers
  import opened Namespace

  type Bytes = seq<nat>

  /** A stored value and when it expires, in milliseconds. */
  datatype Entry = Entry(bytes: Bytes, expires: Option<nat>)

  type Backend = map<string, Entry>

  datatype CacheError = BackendError | PayloadTooLarge | DecodeError | ZeroTtl

  /** A `Cache` handle: its namespace and its payload limit. */
  datatype Handle = Handle(ns: string, limit: Option<nat>)

  predicate TooLarge(h: Handle, bytes: Bytes) { h.limit.Some? && |bytes| > h.limit.value }

  /** Whether the backend fails an operation, and if so whether it took effect first. */
  datatype Fault = NoFault | FailedBefore | FailedAfter

  predicate FitsI64(x: int) { -0x8000_0000_0000_0000 <= x < 0x8000_0000_0000_0000 }

  type I64 = x: int | FitsI64(x)

  datatype Op =
    | GetBytes
    | SetBytes(bytes: Bytes)
    | SetBytesWithTtl(bytes: Bytes, ttl: nat)
    | Forget
    | Exists
    | Incr(delta: I64)
    | Decr(delta: I64)
    | Expire(ttl: nat)
    | Ttl
    | SetIfAbsent(bytes: Bytes)
    | SetIfAbsentWithTtl(bytes: Bytes, ttl: nat)

  datatype Reply = Fails(error: CacheError) | Value(bytes: Option<Bytes>) | Done | Count(n: nat) | Answer(yes: bool)
    | Remaining(seconds: Option<nat>) | Counter(value: I64)

  function Live(e: Option<Entry>, now: nat): Option<Entry> {
    if e.Some? && e.value.expires.Some? && e.value.expires.value <= now then None else e
  }

  /** The moment a whole-second expiry is due. */
  function Deadline(ttl: nat, now: nat): nat { now + ttl / 1000 * 1000 }

  // A counter is stored as its decimal spelling, without leading zeros.

  function Digits(n: nat): (b: Bytes)
    ensures b != []
  {
    if n < 10 then [48 + n] else Digits(n / 10) + [48 + n % 10]
  }

  function Spell(n: int): Bytes { if n < 0 then [45] + Digits(-n) else Digits(n) }

  function ParseDigits(b: Bytes): Option<nat> {
    if b == [] || !(48 <= b[|b| - 1] <= 57) then None
    else if |b| == 1 then Some(b[0] - 48)
    else
      match ParseDigits(b[..|b| - 1])
      case None => None
      case Some(n) => if n == 0 then None else Some(10 * n + (b[|b| - 1] - 48))
  }

  function ParseInt(b: Bytes): Option<int> {
    if b != [] && b[0] == 45 then
      match ParseDigits(b[1..]) case Some(n) => if n == 0 then None else Some(-(n as int)) case None => None
    else match ParseDigits(b) case Some(n) => Some(n as int) case None => None
  }

  lemma {:induction false} ParseDigitsBack(n: nat)
    ensures ParseDigits(Digits(n)) == Some(n) && Digits(n)[0] != 45
  {
    if n >= 10 {
      ParseDigitsBack(n / 10);
      assert Digits(n)[..|Digits(n)| - 1] == Digits(n / 10);
    }
  }

  lemma ParseBack(n: int)
    ensures ParseInt(Spell(n)) == Some(n)
  {
    if n < 0 {
      ParseDigitsBack(-n);
      var digits := Digits(-n);
      assert Spell(n) == [45] + digits && ([45] + digits)[0] == 45 && ([45] + digits)[1..] == digits;
    } else {
      ParseDigitsBack(n);
    }
  }

  /** `INCRBY`: an absent key counts from zero; what is no number, or would overflow, is a backend error. */
  function Add(e: Option<Entry>, delta: int): (Option<Entry>, Reply) {
    var old_ := if e.None? then Some(0) else ParseInt(e.value.bytes);
    if old_.None? || !FitsI64(old_.value) || !FitsI64(old_.value + delta) then (e, Fails(BackendError))
    else
      var n: I64 := old_.value + delta;
      (Some(Entry(Spell(n), if e.None? then None else e.value.expires)), Counter(n))
  }

  /** What an operation refuses before it reaches the backend. */
  function Refused(h: Handle, op: Op): Option<CacheError> {
    match op
    case SetBytes(b) => if TooLarge(h, b) then Some(PayloadTooLarge) else None
    case SetIfAbsent(b) => if TooLarge(h, b) then Some(PayloadTooLarge) else None
    case SetBytesWithTtl(b, ttl) =>
      if ttl == 0 then Some(ZeroTtl) else if TooLarge(h, b) then Some(PayloadTooLarge) else None
    case SetIfAbsentWithTtl(b, ttl) =>
      if ttl == 0 then Some(ZeroTtl) else if TooLarge(h, b) then Some(PayloadTooLarge) else None
    case Expire(ttl) => if ttl == 0 then Some(ZeroTtl) else None
    case _ => None
  }

  /** What a command does to the one entry it addresses; writing with a zero-second expiry is a backend error. */
  function Command(h: Handle, op: Op, e: Option<Entry>, now: nat): (Option<Entry>, Reply) {
    match op
    case GetBytes =>
      (e, if e.None? then Value(None)
          else if TooLarge(h, e.value.bytes) then Fails(PayloadTooLarge) else Value(Some(e.value.bytes)))
    case SetBytes(b) => (Some(Entry(b, None)), Done)
    case SetBytesWithTtl(b, ttl) =>
      if ttl < 1000 then (e, Fails(BackendError)) else (Some(Entry(b, Some(Deadline(ttl, now)))), Done)
    case Forget => (None, Count(if e.Some? then 1 else 0))
    case Exists => (e, Answer(e.Some?))
    case Incr(delta) => Add(e, delta)
    case Decr(delta) => if delta == -0x8000_0000_0000_0000 then (e, Fails(BackendError)) else Add(e, -delta)
    case Expire(ttl) =>
      if e.None? then (e, Answer(false))
      else if ttl < 1000 then (None, Answer(true))
      else (Some(e.value.(expires := Some(Deadline(ttl, now)))), Answer(true))
    case Ttl =>
      (e, if e.None? then Remaining(Some(0))
          else if e.value.expires.None? then Remaining(None)
          else if e.value.expires.value <= now then Remaining(Some(0))
          else Remaining(Some((e.value.expires.value - now) / 1000)))
    case SetIfAbsent(b) =>
      if e.Some? then (e, Answer(false)) else (Some(Entry(b, None)), Answer(true))
    case SetIfAbsentWithTtl(b, ttl) =>
      if ttl < 1000 then (e, Fails(BackendError))
      else if e.Some? then (e, Answer(false))
      else (Some(Entry(b, Some(Deadline(ttl, now)))), Answer(true))
  }

  /** Counting is adding: a second change of a counter is one change by the sum, so a decrement takes an increment back. */
  lemma CountersAdd(e: Option<Entry>, a: int, b: int)
    requires Add(e, a).1.Counter?
    ensures var (f, _) := Add(e, a);
      && Add(f, b).1 == Add(e, a + b).1
      && (Add(f, b).1.Counter? ==> Add(f, b) == Add(e, a + b))
  {
    ParseBack(Add(e, a).1.value);
  }

  function Lookup(b: Backend, key: string): Option<Entry> { if key in b then Some(b[key]) else None }

  function Update(b: Backend, key: string, e: Option<Entry>): Backend {
    match e case None => b - {key} case Some(x) => b[key := x]
  }

  /** One operation through a handle. */
  datatype Event = Event(h: Handle, key: string, op: Op, now: nat, fault: Fault)

  /** One operation on a backend key, by a backend that may fail it. */
  function Perform(b: Backend, h: Handle, op: Op, full: string, now: nat, fault: Fault): (Backend, Reply) {
    match Refused(h, op)
    case Some(error) => (b, Fails(error))
    case None =>
      var (e, reply) := Command(h, op, Live(Lookup(b, full), now), now);
      match fault
      case NoFault => (Update(b, full, e), reply)
      case FailedBefore => (b, Fails(BackendError))
      case FailedAfter => (Update(b, full, e), Fails(BackendError))
  }

  function Exec(b: Backend, ev: Event): (Backend, Reply) {
    Perform(b, ev.h, ev.op, Resolve(ev.h.ns, ev.key), ev.now, ev.fault)
  }

  // ---------- what later reads see ----------

  /** What a read of a backend key at a given moment finds. */
  function Found(b: Backend, full: string, t: nat): Option<Bytes> {
    match Perform(b, Handle("", None), GetBytes, full, t, NoFault).1 case Value(bytes) => bytes case _ => None
  }

  /** From `now` on, every key reads as it did. */
  ghost predicate ReadsAlike(a: Backend, b: Backend, now: nat) {
    forall k: string, t: nat :: t >= now ==> Found(a, k, t) == Found(b, k, t)
  }

  /** Every key but this one reads as it did. */
  ghost predicate OthersAlike(a: Backend, b: Backend, full: string) {
    forall k: string, t: nat :: k != full ==> Found(a, k, t) == Found(b, k, t)
  }

  /** The key reads as these bytes before the deadline, and as nothing from it on. */
  ghost predicate FoundUntil(b: Backend, full: string, bytes: Bytes, deadline: Option<nat>) {
    forall t: nat :: Found(b, full, t) == if deadline.Some? && t >= deadline.value then None else Some(bytes)
  }

  /** An operation on one key never shows in another, nor in any if it is refused or fails before it takes effect. */
  lemma OneKeyOnly(b: Backend, h: Handle, op: Op, full: string, now: nat, fault: Fault)
    ensures OthersAlike(Perform(b, h, op, full, now, fault).0, b, full)
    ensures Refused(h, op).Some? || fault.FailedBefore? ==> Perform(b, h, op, full, now, fault).0 == b
    ensures Refused(h, op).None? && !fault.NoFault? ==> Perform(b, h, op, full, now, fault).1 == Fails(BackendError)
  {
  }

  /** What is refused before the backend is reached: a zero time to live, else a value over the limit. */
  lemma RefusedExactly(b: Backend, h: Handle, op: Op, full: string, now: nat, fault: Fault)
    ensures var timed := op.SetBytesWithTtl? || op.SetIfAbsentWithTtl? || op.Expire?;
      var writes := op.SetBytes? || op.SetBytesWithTtl? || op.SetIfAbsent? || op.SetIfAbsentWithTtl?;
      var reply := Perform(b, h, op, full, now, fault).1;
      && (reply == Fails(ZeroTtl) <==> timed && op.ttl == 0)
      && (writes ==> (reply == Fails(PayloadTooLarge) <==>
            (timed ==> op.ttl > 0) && h.limit.Some? && |op.bytes| > h.limit.value))
  {
  }

  /** A read gives what is found, unless that is over the handle's limit, and changes nothing. */
  lemma GetExactly(b: Backend, h: Handle, full: string, now: nat)
    ensures var (after, reply) := Perform(b, h, GetBytes, full, now, NoFault); var found := Found(b, full, now);
      && reply == (if found.Some? && h.limit.Some? && |found.value| > h.limit.value then Fails(PayloadTooLarge)
                   else Value(found))
      && ReadsAlike(after, b, now)
  {
  }

  /** After a write every read finds the value, and with a time to live none does from the deadline on. */
  lemma SetExactly(b: Backend, h: Handle, op: Op, full: string, now: nat)
    requires op.SetBytes? || op.SetBytesWithTtl?
    ensures var (after, reply) := Perform(b, h, op, full, now, NoFault);
      && (reply == Done <==> !(h.limit.Some? && |op.bytes| > h.limit.value) && (op.SetBytesWithTtl? ==> op.ttl >= 1000))
      && (reply == Done ==>
            FoundUntil(after, full, op.bytes, if op.SetBytes? then None else Some(now + op.ttl / 1000 * 1000)))
      && (reply != Done ==> ReadsAlike(after, b, now))
  {
  }

  /** A lease is taken exactly where nothing is found, and one that is held is left as it is. */
  lemma LeaseExactly(b: Backend, h: Handle, op: Op, full: string, now: nat)
    requires op.SetIfAbsent? || op.SetIfAbsentWithTtl?
    ensures var (after, reply) := Perform(b, h, op, full, now, NoFault);
      var asked := !(h.limit.Some? && |op.bytes| > h.limit.value) && (op.SetIfAbsentWithTtl? ==> op.ttl >= 1000);
      && (if asked then reply == Answer(Found(b, full, now).None?) else reply.Fails?)
      && (asked && Found(b, full, now).None? ==>
            FoundUntil(after, full, op.bytes, if op.SetIfAbsent? then None else Some(now + op.ttl / 1000 * 1000)))
      && (!asked || Found(b, full, now).Some? ==> ReadsAlike(after, b, now))
  {
  }

  /** A forgotten key is found by no one; the reply says whether it was there. */
  lemma ForgetExactly(b: Backend, h: Handle, full: string, now: nat)
    ensures var (after, reply) := Perform(b, h, Forget, full, now, NoFault);
      && reply == Count(if Found(b, full, now).Some? then 1 else 0)
      && forall t: nat :: Found(after, full, t) == None
  {
  }

  lemma ExistsExactly(b: Backend, h: Handle, full: string, now: nat)
    ensures var (after, reply) := Perform(b, h, Exists, full, now, NoFault);
      reply == Answer(Found(b, full, now).Some?) && ReadsAlike(after, b, now)
  {
  }

  /** A time to live keeps what is there until its deadline, and what is not there stays away. */
  lemma ExpireExactly(b: Backend, h: Handle, full: string, ttl: nat, now: nat)
    requires ttl > 0
    ensures var (after, reply) := Perform(b, h, Expire(ttl), full, now, NoFault);
      && reply == Answer(Found(b, full, now).Some?)
      && forall t: nat :: t >= now ==>
           Found(after, full, t) == if t < now + ttl / 1000 * 1000 then Found(b, full, now) else None
  {
  }

  /** The remaining time is `None` for what never goes, and otherwise counts the whole seconds it is still there. */
  lemma TtlExactly(b: Backend, h: Handle, full: string, now: nat)
    ensures var (after, reply) := Perform(b, h, Ttl, full, now, NoFault); var found := Found(b, full, now);
      && reply.Remaining? && ReadsAlike(after, b, now)
      && (reply.seconds.None? ==> found.Some? && forall t: nat :: Found(b, full, t) == found)
      && (reply.seconds.Some? ==> forall t: nat :: t >= now ==>
            && (t < now + 1000 * reply.seconds.value ==> Found(b, full, t) == found && found.Some?)
            && (t >= now + 1000 * (reply.seconds.value + 1) ==> Found(b, full, t) == None))
  {
  }

  /** A counter reads as the decimal of its value, for as long as the key was to live; what is no number is left alone. */
  lemma CounterExactly(b: Backend, h: Handle, full: string, delta: I64, now: nat)
    ensures var (after, reply) := Perform(b, h, Incr(delta), full, now, NoFault);
      var old_ := if Found(b, full, now).None? then Some(0) else ParseInt(Found(b, full, now).value);
      && (reply.Counter? <==> old_.Some? && FitsI64(old_.value) && FitsI64(old_.value + delta))
      && (reply.Counter? ==>
            && reply.value == old_.value + delta
            && forall t: nat :: t >= now ==>
                 var gone := Found(b, full, now).Some? && Found(b, full, t).None?;
                 Found(after, full, t) == if gone then None else Some(Spell(reply.value)))
      && (!reply.Counter? ==> ReadsAlike(after, b, now))
  {
  }

  /** A decrement is the opposite increment; the one that has no opposite is a backend error. */
  lemma DecrementExactly(b: Backend, h: Handle, full: string, delta: I64, now: nat)
    ensures var opposite := 0 - delta as int;
      if FitsI64(opposite)
      then Perform(b, h, Decr(delta), full, now, NoFault) == Perform(b, h, Incr(opposite), full, now, NoFault)
      else Perform(b, h, Decr(delta), full, now, NoFault).1 == Fails(BackendError)
  {
    assert FitsI64(delta);
    assert FitsI64(0 - delta as int) <==> delta as int != -0x8000_0000_0000_0000;
  }

  // ---------- reading one's writes over a run ----------

  function ExecAll(b: Backend, events: seq<Event>): Backend
    decreases events
  {
    if events == [] then b else ExecAll(Exec(b, events[0]).0, events[1..])
  }

  /** Over any run, a key reads as before if no operation addressed it. */
  lemma {:induction false} KeyAlone(b: Backend, events: seq<Event>, full: string, t: nat)
    requires forall ev <- events :: Resolve(ev.h.ns, ev.key) != full
    ensures Found(ExecAll(b, events), full, t) == Found(b, full, t)
    decreases events
  {
    if events != [] {
      var ev := events[0];
      assert ev in events;
      OneKeyOnly(b, ev.h, ev.op, Resolve(ev.h.ns, ev.key), ev.now, ev.fault);
      KeyAlone(Exec(b, ev).0, events[1..], full, t);
    }
  }

  /**
   * Read your writes: after a successful write, and any run of operations on other keys, a read finds those
   * bytes before the deadline and nothing from it on.
   */
  lemma ReadYourWrites(b: Backend, h: Handle, bytes: Bytes, ttl: nat, full: string, now: nat, events: seq<Event>,
                       reader: Handle, t: nat)
    requires Perform(b, h, SetBytesWithTtl(bytes, ttl), full, now, NoFault).1 == Done
    requires forall ev <- events :: Resolve(ev.h.ns, ev.key) != full
    requires !(reader.limit.Some? && |bytes| > reader.limit.value)
    ensures var after := ExecAll(Perform(b, h, SetBytesWithTtl(bytes, ttl), full, now, NoFault).0, events);
      Perform(after, reader, GetBytes, full, t, NoFault).1 ==
        Value(if t < now + ttl / 1000 * 1000 then Some(bytes) else None)
  {
    var written := Perform(b, h, SetBytesWithTtl(bytes, ttl), full, now, NoFault).0;
    SetExactly(b, h, SetBytesWithTtl(bytes, ttl), full, now);
    KeyAlone(written, events, full, t);
    GetExactly(ExecAll(written, events), reader, full, t);
  }

  // ---------- namespaces do not interfere ----------

  /** The replies the events of one namespace get, in order. */
  function Replies(b: Backend, events: seq<Event>, ns: string): seq<Reply>
    decreases events
  {
    if events == [] then []
    else
      var (after, reply) := Exec(b, events[0]);
      (if events[0].h.ns == ns then [reply] else []) + Replies(after, events[1..], ns)
  }

  /** The events of the namespaces that are related to this one, or that use no namespace at all. */
  function Purge(events: seq<Event>, ns: string): seq<Event> {
    if events == [] then []
    else
      (if events[0].h.ns == [] || Related(events[0].h.ns, ns) then [events[0]] else []) + Purge(events[1..], ns)
  }

  /** Two backends agree on every key a namespace can name. */
  ghost predicate Agree(a: Backend, b: Backend, ns: string) {
    forall key :: ns + ":" <= key ==> Lookup(a, key) == Lookup(b, key)
  }

  lemma ExecAgree(a: Backend, b: Backend, ev: Event, ns: string)
    requires ns != [] && Agree(a, b, ns)
    ensures Agree(Exec(a, ev).0, Exec(b, ev).0, ns)
    ensures ev.h.ns == ns ==> Exec(a, ev).1 == Exec(b, ev).1
  {
    var key := Resolve(ev.h.ns, ev.key);
    if ev.h.ns == ns {
      assert ns + ":" <= key;
    }
    var a', b' := Exec(a, ev).0, Exec(b, ev).0;
    forall k | ns + ":" <= k ensures Lookup(a', k) == Lookup(b', k) {
      assert Lookup(a, k) == Lookup(b, k);
      if k != key {
        assert Lookup(a', k) == Lookup(a, k) && Lookup(b', k) == Lookup(b, k);
      }
    }
  }

  lemma ExecApart(a: Backend, ev: Event, ns: string)
    requires ns != [] && ev.h.ns != [] && !Related(ev.h.ns, ns)
    ensures Agree(Exec(a, ev).0, a, ns)
  {
    var key := Resolve(ev.h.ns, ev.key);
    if ns + ":" <= key {
      assert ev.h.ns + ":" <= key;
      PrefixOfBoth(ev.h.ns, ns, key);
    }
  }

  /**
   * Over any run, a namespace gets the same replies whether or not the operations of unrelated
   * namespaces happen at all: none of their writes, deletions or expiries can be observed.
   */
  lemma {:induction false} NoInterference(a: Backend, b: Backend, events: seq<Event>, ns: string)
    requires ns != [] && Agree(a, b, ns)
    ensures Replies(a, events, ns) == Replies(b, Purge(events, ns), ns)
    decreases events
  {
    if events != [] {
      var ev, rest := events[0], events[1..];
      if ev.h.ns == [] || Related(ev.h.ns, ns) {
        ExecAgree(a, b, ev, ns);
        NoInterference(Exec(a, ev).0, Exec(b, ev).0, rest, ns);
        assert Purge(events, ns) == [ev] + Purge(rest, ns);
        assert Purge(events, ns)[1..] == Purge(rest, ns);
      } else {
        ExecApart(a, ev, ns);
        NoInterference(Exec(a, ev).0, b, rest, ns);
        assert Purge(events, ns) == Purge(rest, ns);
      }
    }
  }
}

/** The cache-aside facade `remember`, with any number of callers in flight. */
module Remember {
  import opened Wrappers
  import opened Namespace
  import opened CacheStore

  /** JSON, as far as it matters: what is written reads back, and either direction may fail. */
  datatype Codec = Codec(encode: nat -> Option<Bytes>, decode: Bytes -> Option<nat>)

  ghost predicate RoundTrips(c: Codec) {
    forall v: nat :: c.encode(v).Some? ==> c.decode(c.encode(v).value) == Some(v)
  }

  /** A typed `get` of one backend key. */
  function Get(c: Codec, h: Handle, b: Backend, full: string, now: nat, fault: Fault): Result<Option<nat>, CacheError> {
    match Perform(b, h, GetBytes, full, now, fault).1
    case Fails(error) => Err(error)
    case Value(Some(bytes)) => (match c.decode(bytes) case None => Err(DecodeError) case Some(v) => Ok(Some(v)))
    case _ => Ok(None)
  }

  /** A typed `put`: a write with a time to live, once the value is spelled. */
  function Put(c: Codec, h: Handle, b: Backend, full: string, v: nat, ttl: nat, now: nat, fault: Fault)
    : (Backend, Result<(), CacheError>)
  {
    if ttl == 0 then (b, Err(ZeroTtl))
    else
      match c.encode(v)
      case None => (b, Err(DecodeError))
      case Some(bytes) =>
        var (after, reply) := Perform(b, h, SetBytesWithTtl(bytes, ttl), full, now, fault);
        (after, if reply.Fails? then Err(reply.error) else Ok(()))
  }

  /** The value a loader computes for a backend key; it may also fail, and errors are the caller's. */
  type Loader = string -> nat

  /** A caller that has loaded a value and not stored it yet. */
  datatype Pending = Pending(h: Handle, full: string, value: nat, ttl: nat)

  datatype Observation =
    | LoaderRan(full: string, present: bool)
    | Returned(full: string, result: Result<nat, CacheError>)

  datatype World = World(backend: Backend, pending: map<nat, Pending>, log: seq<Observation>)

  datatype Event =
    /** The read half of `remember` by a caller, and the loader if it is a miss; `failure` is its error. */
    | Begin(caller: nat, h: Handle, key: string, ttl: nat, now: nat, fault: Fault, failure: Option<CacheError>)
    /** Its write half; anything may have happened in between. */
    | End(caller: nat, now: nat, fault: Fault)
    | Forgets(h: Handle, key: string, fault: Fault)
    /** Expiry or eviction of any entry. */
    | Drop(full: string)

  function Note(w: World, o: Observation): World { w.(log := w.log + [o]) }

  function Step(c: Codec, load: Loader, w: World, e: Event): World {
    match e
    case Begin(caller, h, key, ttl, now, fault, failure) =>
      var full := Resolve(h.ns, key);
      if caller in w.pending then w
      else
        (match Get(c, h, w.backend, full, now, fault)
         case Err(error) => Note(w, Returned(full, Err(error)))
         case Ok(Some(v)) => Note(w, Returned(full, Ok(v)))
         case Ok(None) =>
           var ran := Note(w, LoaderRan(full, Live(Lookup(w.backend, full), now).Some?));
           if failure.Some? then Note(ran, Returned(full, Err(failure.value)))
           else ran.(pending := w.pending[caller := Pending(h, full, load(full), ttl)]))
    case End(caller, now, fault) =>
      if caller !in w.pending then w
      else
        var p := w.pending[caller];
        var (backend, stored) := Put(c, p.h, w.backend, p.full, p.value, p.ttl, now, fault);
        var result := if stored.Ok? then Ok(p.value) else Err(stored.error);
        Note(World(backend, w.pending - {caller}, w.log), Returned(p.full, result))
    case Forgets(h, key, fault) =>
      if fault.FailedBefore? then w else w.(backend := w.backend - {Resolve(h.ns, key)})
    case Drop(full) => w.(backend := w.backend - {full})
  }

  function Run(c: Codec, load: Loader, w: World, events: seq<Event>): World
    decreases events
  {
    if events == [] then w else Run(c, load, Step(c, load, w, events[0]), events[1..])
  }

  const EMPTY := World(map[], map[], [])

  ghost predicate ObservationOk(load: Loader, o: Observation) {
    match o
    case LoaderRan(_, present) => !present
    case Returned(full, result) => result.Ok? ==> result.value == load(full)
  }

  /** Everything stored or about to be stored is the loader's value for its key; so was every answer. */
  ghost predicate Faithful(c: Codec, load: Loader, w: World) {
    && (forall full <- w.backend.Keys :: c.decode(w.backend[full].bytes) == Some(load(full)))
    && (forall caller <- w.pending.Keys :: w.pending[caller].value == load(w.pending[caller].full))
    && (forall o <- w.log :: ObservationOk(load, o))
  }

  lemma NoteFaithful(c: Codec, load: Loader, w: World, o: Observation)
    requires Faithful(c, load, w) && ObservationOk(load, o)
    ensures Faithful(c, load, Note(w, o))
  {
  }

  lemma StepFaithful(c: Codec, load: Loader, w: World, e: Event)
    requires RoundTrips(c) && Faithful(c, load, w)
    ensures Faithful(c, load, Step(c, load, w, e))
  {
    match e
    case Begin(caller, h, key, ttl, now, fault, failure) =>
      var full := Resolve(h.ns, key);
      if caller !in w.pending && Get(c, h, w.backend, full, now, fault) == Ok(None) {
        var ran := Note(w, LoaderRan(full, Live(Lookup(w.backend, full), now).Some?));
        NoteFaithful(c, load, w, LoaderRan(full, Live(Lookup(w.backend, full), now).Some?));
        if failure.Some? {
          NoteFaithful(c, load, ran, Returned(full, Err(failure.value)));
        }
      }
    case End(caller, now, fault) =>
      if caller in w.pending {
        EndFaithful(c, load, w, caller, now, fault);
      }
    case Forgets(_, _, _) =>
    case Drop(_) =>
  }

  lemma EndFaithful(c: Codec, load: Loader, w: World, caller: nat, now: nat, fault: Fault)
    requires RoundTrips(c) && Faithful(c, load, w) && caller in w.pending
    ensures Faithful(c, load, Step(c, load, w, End(caller, now, fault)))
  {
    var p := w.pending[caller];
    var (backend, stored) := Put(c, p.h, w.backend, p.full, p.value, p.ttl, now, fault);
    var v := World(backend, w.pending - {caller}, w.log);
    assert Faithful(c, load, v);
    NoteFaithful(c, load, v, Returned(p.full, if stored.Ok? then Ok(p.value) else Err(stored.error)));
  }

  /**
   * Over every interleaving of callers, forgets, expiries and backend errors, every answer `remember`
   * gives is the loader's value for its key, and the loader ran only where the key was absent.
   */
  lemma {:induction false} AnswersAreLoaded(c: Codec, load: Loader, w: World, events: seq<Event>)
    requires RoundTrips(c) && Faithful(c, load, w)
    ensures Faithful(c, load, Run(c, load, w, events))
    decreases events
  {
    if events != [] {
      StepFaithful(c, load, w, events[0]);
      AnswersAreLoaded(c, load, Step(c, load, w, events[0]), events[1..]);
    }
  }

  lemma AnswersFromEmpty(c: Codec, load: Loader, events: seq<Event>, i: nat)
    requires RoundTrips(c) && i < |Run(c, load, EMPTY, events).log|
    ensures ObservationOk(load, Run(c, load, EMPTY, events).log[i])
  {
    AnswersAreLoaded(c, load, EMPTY, events);
    var log := Run(c, load, EMPTY, events).log;
    assert log[i] in log;
  }

  /** A failing read or loader stores nothing: only the write half of a successful load does. */
  lemma OnlyLoadsAreStored(c: Codec, load: Loader, w: World, e: Event)
    ensures !e.End? ==> Step(c, load, w, e).backend.Keys <= w.backend.Keys
    ensures e.Begin? ==> Step(c, load, w, e).backend == w.backend
    ensures e.Begin? && e.failure.Some? ==> Step(c, load, w, e).pending == w.pending
  {
  }

  // ---------- a remembered value is served until its deadline ----------

  /** Exactly which values are stored, and why others are not. */
  lemma PutExactly(c: Codec, h: Handle, b: Backend, full: string, v: nat, ttl: nat, now: nat, fault: Fault)
    ensures var (after, r) := Put(c, h, b, full, v, ttl, now, fault); var bytes := c.encode(v);
      && (r == Err(ZeroTtl) <==> ttl == 0)
      && (r == Err(DecodeError) <==> ttl > 0 && bytes.None?)
      && (r == Err(PayloadTooLarge) <==> ttl > 0 && bytes.Some? && h.limit.Some? && |bytes.value| > h.limit.value)
      && (r.Ok? <==> ttl >= 1000 && bytes.Some? && !(h.limit.Some? && |bytes.value| > h.limit.value) && fault.NoFault?)
      && (r.Ok? ==> forall t: nat :: Found(after, full, t) == if t < now + ttl / 1000 * 1000 then bytes else None)
  {
    if c.encode(v).Some? && ttl > 0 {
      SetExactly(b, h, SetBytesWithTtl(c.encode(v).value, ttl), full, now);
    }
  }

  /** A typed read: absent, decoded, or one of three errors. */
  lemma GetTypedExactly(c: Codec, h: Handle, b: Backend, full: string, now: nat)
    ensures var found := Found(b, full, now);
      Get(c, h, b, full, now, NoFault) ==
        if found.None? then Ok(None)
        else if h.limit.Some? && |found.value| > h.limit.value then Err(PayloadTooLarge)
        else if c.decode(found.value).None? then Err(DecodeError) else Ok(c.decode(found.value))
  {
    GetExactly(b, h, full, now);
  }

  /** The event writes, forgets or drops this backend key. */
  predicate Touches(w: World, e: Event, full: string) {
    match e
    case Begin(_, _, _, _, _, _, _) => false
    case End(caller, _, _) => caller in w.pending && w.pending[caller].full == full
    case Forgets(h, key, _) => Resolve(h.ns, key) == full
    case Drop(dropped) => dropped == full
  }

  ghost predicate NeverTouched(c: Codec, load: Loader, w: World, events: seq<Event>, full: string)
    decreases events
  {
    events != [] ==>
      !Touches(w, events[0], full) && NeverTouched(c, load, Step(c, load, w, events[0]), events[1..], full)
  }

  lemma StepElsewhere(c: Codec, load: Loader, w: World, e: Event, full: string, t: nat)
    requires !Touches(w, e, full)
    ensures Found(Step(c, load, w, e).backend, full, t) == Found(w.backend, full, t)
  {
    if e.End? && e.caller in w.pending {
      var p := w.pending[e.caller];
      if c.encode(p.value).Some? {
        OneKeyOnly(w.backend, p.h, SetBytesWithTtl(c.encode(p.value).value, p.ttl), p.full, e.now, e.fault);
      }
    }
  }

  lemma {:induction false} RunElsewhere(c: Codec, load: Loader, w: World, events: seq<Event>, full: string, t: nat)
    requires NeverTouched(c, load, w, events, full)
    ensures Found(Run(c, load, w, events).backend, full, t) == Found(w.backend, full, t)
    decreases events
  {
    if events != [] {
      StepElsewhere(c, load, w, events[0], full, t);
      RunElsewhere(c, load, Step(c, load, w, events[0]), events[1..], full, t);
    }
  }

  /**
   * Over every run: once a call has stored its value, and until someone writes, forgets or drops that key,
   * a call that can read it returns the loader's value before the deadline without asking the loader, and
   * asks it again from the deadline on.
   */
  lemma RememberedUntilDeadline(c: Codec, load: Loader, w: World, caller: nat, now: nat, events: seq<Event>, later: Event)
    requires RoundTrips(c) && Faithful(c, load, w) && caller in w.pending
    requires var p := w.pending[caller]; Put(c, p.h, w.backend, p.full, p.value, p.ttl, now, NoFault).1.Ok?
    requires NeverTouched(c, load, Step(c, load, w, End(caller, now, NoFault)), events, w.pending[caller].full)
    requires later.Begin? && later.fault.NoFault? && Resolve(later.h.ns, later.key) == w.pending[caller].full
    requires later.caller !in Run(c, load, Step(c, load, w, End(caller, now, NoFault)), events).pending
    requires !TooLarge(later.h, c.encode(w.pending[caller].value).value)
    ensures var p := w.pending[caller];
      var v := Run(c, load, Step(c, load, w, End(caller, now, NoFault)), events);
      var u := Step(c, load, v, later);
      if later.now < now + p.ttl / 1000 * 1000
      then u.log == v.log + [Returned(p.full, Ok(load(p.full)))] && u.pending == v.pending
      else LoaderRan(p.full, false) in u.log[|v.log|..]
  {
    var p := w.pending[caller];
    var stored := Step(c, load, w, End(caller, now, NoFault));
    var v := Run(c, load, stored, events);
    PutExactly(c, p.h, w.backend, p.full, p.value, p.ttl, now, NoFault);
    RunElsewhere(c, load, stored, events, p.full, later.now);
    GetTypedExactly(c, later.h, v.backend, p.full, later.now);
    FoundIsLive(v.backend, p.full, later.now);
    var u := Step(c, load, v, later);
    if later.now >= now + p.ttl / 1000 * 1000 {
      assert u.log[|v.log|] == LoaderRan(p.full, false);
    }
  }

  /**
   * Over every run: once a key is forgotten or has dropped out, and until someone writes it, a call asks the
   * loader. Forgetting that fails before it takes effect leaves the key as it was.
   */
  lemma ForgottenIsReloaded(c: Codec, load: Loader, w: World, e: Event, full: string, events: seq<Event>, later: Event)
    requires (e.Forgets? && Resolve(e.h.ns, e.key) == full) || (e.Drop? && e.full == full)
    requires NeverTouched(c, load, Step(c, load, w, e), events, full)
    requires later.Begin? && later.fault.NoFault? && Resolve(later.h.ns, later.key) == full
    requires later.caller !in Run(c, load, Step(c, load, w, e), events).pending
    ensures e.Forgets? && e.fault.FailedBefore? ==> Step(c, load, w, e) == w
    ensures !(e.Forgets? && e.fault.FailedBefore?) ==>
      var v := Run(c, load, Step(c, load, w, e), events);
      LoaderRan(full, false) in Step(c, load, v, later).log[|v.log|..]
  {
    var gone := Step(c, load, w, e);
    var v := Run(c, load, gone, events);
    RunElsewhere(c, load, gone, events, full, later.now);
    GetTypedExactly(c, later.h, v.backend, full, later.now);
    FoundIsLive(v.backend, full, later.now);
    FoundIsLive(gone.backend, full, later.now);
    if !(e.Forgets? && e.fault.FailedBefore?) {
      assert Step(c, load, v, later).log[|v.log|] == LoaderRan(full, false);
    }
  }

  lemma FoundIsLive(b: Backend, full: string, t: nat)
    ensures Found(b, full, t).Some? <==> Live(Lookup(b, full), t).Some?
  {
  }

  // ---------- `remember` as one call ----------

  /** What one undisturbed call leaves and returns, and whether it asked the loader. */
  datatype Call = Call(backend: Backend, result: Result<nat, CacheError>, ran: bool)

  /** `loaded` is what the loader would answer. */
  function RememberOnce(c: Codec, h: Handle, b: Backend, full: string, ttl: nat, loaded: Result<nat, CacheError>,
                        now: nat, readFault: Fault, writeFault: Fault): Call
  {
    match Get(c, h, b, full, now, readFault)
    case Err(error) => Call(b, Err(error), false)
    case Ok(Some(v)) => Call(b, Ok(v), false)
    case Ok(None) =>
      if loaded.Err? then Call(b, loaded, true)
      else
        var (after, stored) := Put(c, h, b, full, loaded.value, ttl, now, writeFault);
        Call(after, if stored.Ok? then loaded else Err(stored.error), true)
  }

  /** A call that nobody interrupts is its two halves in a row, so what holds of every run holds of it. */
  lemma RememberIsTwoHalves(c: Codec, load: Loader, w: World, caller: nat, h: Handle, key: string, ttl: nat,
                            failure: Option<CacheError>, now: nat, readFault: Fault, writeFault: Fault)
    requires caller !in w.pending
    ensures var full := Resolve(h.ns, key);
      var loaded := if failure.Some? then Err(failure.value) else Ok(load(full));
      var call := RememberOnce(c, h, w.backend, full, ttl, loaded, now, readFault, writeFault);
      var v := Run(c, load, w, [Begin(caller, h, key, ttl, now, readFault, failure), End(caller, now, writeFault)]);
      v == World(call.backend, w.pending,
                 w.log + (if call.ran then [LoaderRan(full, false)] else []) + [Returned(full, call.result)])
  {
    var begin, end := Begin(caller, h, key, ttl, now, readFault, failure), End(caller, now, writeFault);
    assert [begin, end][1..] == [end] && [end][1..] == [];
    var middle := Step(c, load, w, begin);
    assert Run(c, load, middle, [end]) == Step(c, load, middle, end);
    assert w.log + [] == w.log;
    assert caller in middle.pending ==> middle.pending - {caller} == w.pending;
  }

  /** The cache object, whose backend the call reads and writes. */
  class Cache {
    var backend: Backend
    const h: Handle

    constructor (h: Handle)
      ensures backend == map[] && this.h == h
    {
      backend := map[];
      this.h := h;
    }

    method Remember(c: Codec, key: string, ttl: nat, loaded: Result<nat, CacheError>, now: nat,
                    readFault: Fault, writeFault: Fault)
      returns (r: Result<nat, CacheError>, ran: bool)
      modifies this
      ensures Call(backend, r, ran) ==
        RememberOnce(c, h, old(backend), Resolve(h.ns, key), ttl, loaded, now, readFault, writeFault)
    {
      var full := Resolve(h.ns, key);
      var got := Get(c, h, backend, full, now, readFault);
      if got.Err? {
        return Err(got.error), false;
      }
      if got.value.Some? {
        return Ok(got.value.value), false;
      }
      if loaded.Err? {
        return loaded, true;
      }
      var (after, stored) := Put(c, h, backend, full, loaded.value, ttl, now, writeFault);
      backend := after;
      if stored.Err? {
        return Err(stored.error), true;
      }
      return loaded, true;
    }
  }
}
