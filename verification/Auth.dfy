/** Login, request, rebind and logout on one session, after `src/auth/extract.rs`. */
module AuthSession {
  import opened Wrappers
  import Hex

  const I64_MAX: int := 0x7FFF_FFFF_FFFF_FFFF

  /** Unix milliseconds as `now_unix_millis` returns them; the clock may move either way. */
  type Millis = m: int | 0 <= m <= I64_MAX

  type Credential = seq<Hex.Byte>

  /** The digest of a credential, spelled in hexadecimal. */
  function CredentialStamp(digest: Credential -> seq<Hex.Byte>, credential: Credential): string {
    Hex.HexEncode(digest(credential))
  }

  ghost predicate Injective(digest: Credential -> seq<Hex.Byte>) {
    forall a, b :: digest(a) == digest(b) ==> a == b
  }

  /** Distinct digests are spelled differently, so distinct credentials get distinct stamps. */
  lemma StampsDistinct(digest: Credential -> seq<Hex.Byte>, a: Credential, b: Credential)
    requires Injective(digest)
    ensures CredentialStamp(digest, a) == CredentialStamp(digest, b) <==> a == b
  {
    Hex.DecodeEncode(digest(a));
    Hex.DecodeEncode(digest(b));
  }

  /** The reserved entries of a session record. */
  datatype Session = Session(user: Option<nat>, authAt: Option<Millis>, stamp: Option<string>, remember: bool)

  const EMPTY := Session(None, None, None, false)

  /** What the application fixes: the digest and the absolute lifetime in milliseconds. */
  datatype Config = Config(digest: Credential -> seq<Hex.Byte>, maxAge: Millis)

  /** The session operation that fails, if one does; a failed operation leaves the record as it was. */
  datatype Fault =
    | NoFault
    | Rotate | InsertUser | InsertAuthAt | InsertStamp | InsertRemember
    | ReadUser | ReadAuthAt | FlushExpired | WriteAuthAt | ReadStamp | FlushMismatch | WriteStamp

  // ---------- login ----------

  /** The record after a login: every insert before the failing one has happened. */
  function LoggedIn(s: Session, uid: nat, stamp: Option<string>, remember: bool, now: Millis, fault: Fault): Session {
    if fault.Rotate? || fault.InsertUser? then s
    else
      var s := s.(user := Some(uid));
      if fault.InsertAuthAt? then s
      else
        var s := s.(authAt := Some(now));
        if stamp.Some? && fault.InsertStamp? then s
        else
          var s := if stamp.Some? then s.(stamp := stamp) else s;
          if remember && !fault.InsertRemember? then s.(remember := true) else s
  }

  // ---------- one authenticated request ----------

  datatype Outcome = Failed | Anonymous | Authenticated(uid: nat)

  /** i64 subtraction that stops at the bounds. */
  function SaturatingSub(a: int, b: int): int {
    if a - b > I64_MAX then I64_MAX else if a - b < -I64_MAX - 1 then -I64_MAX - 1 else a - b
  }

  /** Clamping a negative age to zero would change nothing: no maximum age is negative. */
  lemma ClampedAge(now: Millis, at: Millis, maxAge: Millis)
    ensures SaturatingSub(now, at) <= maxAge <==> (if now < at then 0 else now - at) <= maxAge
  {
  }

  /** What the application's loader answers for a user id. */
  datatype Loaded = LoadError | NoUser | User(credential: Option<Credential>)

  /** The lifetime half of `load_user`: the record it leaves, and an answer if it already ends there. */
  function CheckLifetime(cfg: Config, s: Session, now: Millis, fault: Fault): (Session, Option<Outcome>) {
    if fault.ReadAuthAt? then (s, Some(Failed))
    else
      match s.authAt
      case Some(at) =>
        if SaturatingSub(now, at) <= cfg.maxAge then (s, None)
        else if fault.FlushExpired? then (s, Some(Failed))
        else (EMPTY, Some(Anonymous))
      case None =>
        if fault.WriteAuthAt? then (s, Some(Failed)) else (s.(authAt := Some(now)), None)
  }

  /** The credential half of `load_user`. */
  function CheckCredential(cfg: Config, s: Session, uid: nat, credential: Option<Credential>, fault: Fault): (Session, Outcome) {
    match credential
    case None => (s, Authenticated(uid))
    case Some(c) =>
      var expected := CredentialStamp(cfg.digest, c);
      if fault.ReadStamp? then (s, Failed)
      else
        match s.stamp
        case Some(bound) =>
          if bound == expected then (s, Authenticated(uid))
          else if fault.FlushMismatch? then (s, Failed)
          else (EMPTY, Anonymous)
        case None =>
          if fault.WriteStamp? then (s, Failed) else (s.(stamp := Some(expected)), Authenticated(uid))
  }

  /** `load_user` on a record, given what the loader would answer for the bound user. */
  function LoadUser(cfg: Config, s: Session, loaded: nat -> Loaded, now: Millis, fault: Fault): (Session, Outcome) {
    if fault.ReadUser? then (s, Failed)
    else if s.user.None? then (s, Anonymous)
    else
      var (t, answer) := CheckLifetime(cfg, s, now, fault);
      if answer.Some? then (t, answer.value)
      else
        match loaded(s.user.value)
        case LoadError => (t, Failed)
        case NoUser => (t, Anonymous)
        case User(credential) => CheckCredential(cfg, t, s.user.value, credential, fault)
  }

  /** The session is past its lifetime. */
  predicate Expired(cfg: Config, s: Session, now: Millis) { s.authAt.Some? && now - s.authAt.value > cfg.maxAge }

  /** The record carries the stamp of another credential. */
  predicate Mismatched(cfg: Config, s: Session, c: Credential) {
    s.stamp.Some? && s.stamp.value != CredentialStamp(cfg.digest, c)
  }

  /** A session operation that is needed to check the lifetime fails. */
  predicate LifetimeFails(cfg: Config, s: Session, now: Millis, fault: Fault) {
    fault.ReadAuthAt? || (Expired(cfg, s, now) && fault.FlushExpired?) || (s.authAt.None? && fault.WriteAuthAt?)
  }

  /** A session operation that is needed to check the credential fails. */
  predicate CredentialFails(cfg: Config, s: Session, c: Credential, fault: Fault) {
    fault.ReadStamp? || (Mismatched(cfg, s, c) && fault.FlushMismatch?) || (s.stamp.None? && fault.WriteStamp?)
  }

  /**
   * Every answer of `load_user` has its cause: an outage of the database or of a session operation on the way
   * is a failure and never taken for a visitor, a user is answered for exactly if nothing failed and the
   * lifetime and the credential are in order, and everyone else is a visitor.
   */
  lemma LoadUserExactly(cfg: Config, s: Session, loaded: nat -> Loaded, now: Millis, fault: Fault)
    ensures var answer := LoadUser(cfg, s, loaded, now, fault).1;
      var row := if s.user.Some? then loaded(s.user.value) else NoUser;
      var tracked := row.User? && row.credential.Some?;
      && (answer == Failed <==>
            || fault.ReadUser?
            || (s.user.Some? && LifetimeFails(cfg, s, now, fault))
            || (s.user.Some? && !Expired(cfg, s, now)
                && (row.LoadError? || (tracked && CredentialFails(cfg, s, row.credential.value, fault)))))
      && (answer.Authenticated? <==>
            && !fault.ReadUser? && s.user.Some? && !LifetimeFails(cfg, s, now, fault) && !Expired(cfg, s, now)
            && row.User?
            && (tracked ==> !CredentialFails(cfg, s, row.credential.value, fault)
                            && !Mismatched(cfg, s, row.credential.value)))
      && (answer.Authenticated? ==> s.user == Some(answer.uid))
  {
  }

  // ---------- the same, step by step on a session object ----------

  class TowerSession {
    var id: nat
    var user: Option<nat>
    var authAt: Option<Millis>
    var stamp: Option<string>
    var remember: bool

    function Value(): Session reads this { Session(user, authAt, stamp, remember) }

    constructor (id: nat)
      ensures Value() == EMPTY && this.id == id
    {
      this.id := id;
      user, authAt, stamp, remember := None, None, None, false;
    }

    method Flush()
      modifies this
      ensures Value() == EMPTY && id == old(id)
    {
      user, authAt, stamp, remember := None, None, None, false;
    }

    /** `LoginBuilder::into_future`: rotate the id, then insert one entry after another. */
    method Login(newId: nat, uid: nat, credential: Option<string>, rememberMe: bool, now: Millis, fault: Fault)
      returns (ok: bool)
      modifies this
      ensures Value() == LoggedIn(old(Value()), uid, credential, rememberMe, now, fault)
      ensures id == if fault.Rotate? then old(id) else newId
      ensures ok <==> !fault.Rotate? && !fault.InsertUser? && !fault.InsertAuthAt?
                      && (fault.InsertStamp? ==> credential.None?) && (fault.InsertRemember? ==> !rememberMe)
    {
      if fault.Rotate? { return false; }
      id := newId;
      if fault.InsertUser? { return false; }
      user := Some(uid);
      if fault.InsertAuthAt? { return false; }
      authAt := Some(now);
      if credential.Some? {
        if fault.InsertStamp? { return false; }
        stamp := credential;
      }
      if rememberMe {
        if fault.InsertRemember? { return false; }
        remember := true;
      }
      ok := true;
    }

    /** `load_user`, with its early answers. */
    method Load(cfg: Config, loaded: nat -> Loaded, now: Millis, fault: Fault) returns (outcome: Outcome)
      modifies this
      ensures (Value(), outcome) == LoadUser(cfg, old(Value()), loaded, now, fault)
      ensures id == old(id)
    {
      if fault.ReadUser? { return Failed; }
      if user.None? { return Anonymous; }
      var uid := user.value;
      if fault.ReadAuthAt? { return Failed; }
      if authAt.Some? {
        if SaturatingSub(now, authAt.value) > cfg.maxAge {
          if fault.FlushExpired? { return Failed; }
          Flush();
          return Anonymous;
        }
      } else {
        if fault.WriteAuthAt? { return Failed; }
        authAt := Some(now);
      }
      var answer := loaded(uid);
      if answer.LoadError? { return Failed; }
      if answer.NoUser? { return Anonymous; }
      if answer.credential.Some? {
        var expected := CredentialStamp(cfg.digest, answer.credential.value);
        if fault.ReadStamp? { return Failed; }
        if stamp.None? {
          if fault.WriteStamp? { return Failed; }
          stamp := Some(expected);
        } else if stamp.value != expected {
          if fault.FlushMismatch? { return Failed; }
          Flush();
          return Anonymous;
        }
      }
      outcome := Authenticated(uid);
    }

    /** `rebind_credential`; without a credential there is nothing to do. */
    method Rebind(cfg: Config, credential: Option<Credential>, fault: Fault) returns (ok: bool)
      modifies this
      ensures Value() == Rebound(cfg, old(Value()), credential, fault) && id == old(id)
      ensures ok <==> credential.None? || !fault.InsertStamp?
    {
      if credential.None? { return true; }
      if fault.InsertStamp? { return false; }
      stamp := Some(CredentialStamp(cfg.digest, credential.value));
      ok := true;
    }
  }

  function Rebound(cfg: Config, s: Session, credential: Option<Credential>, fault: Fault): Session {
    if credential.None? || fault.InsertStamp? then s
    else s.(stamp := Some(CredentialStamp(cfg.digest, credential.value)))
  }
}

/** Whole runs over many sessions and changing credentials. */
module AuthRuns {
  import opened Wrappers
  import opened AuthSession

  /** Every session record, every user row (with its credential, if it has one), every id ever issued. */
  datatype World = World(sessions: map<nat, Session>, users: map<nat, Option<Credential>>, issued: set<nat>)

  datatype Event =
    /** A request carrying session `id`; `dbDown` makes the user loader fail. */
    | Request(id: nat, now: Millis, dbDown: bool, fault: Fault)
    /** A login attempt, with the credential of the user object it was given. */
    | Login(id: nat, newId: nat, uid: nat, credential: Option<Credential>, remember: bool, now: Millis, fault: Fault)
    | Rebind(id: nat, credential: Option<Credential>, fault: Fault)
    | Logout(id: nat, fails: bool)
    | Regenerate(id: nat, newId: nat, fails: bool)
    /** The session layer drops an idle record. */
    | Evict(id: nat)
    /** A user row is written or deleted by anyone. */
    | SetUser(uid: nat, row: Option<Option<Credential>>)

  function Record(w: World, id: nat): Session { if id in w.sessions then w.sessions[id] else EMPTY }

  function Store(w: World, id: nat, s: Session): World {
    w.(sessions := w.sessions[id := s], issued := w.issued + {id})
  }

  /** The record moves to a fresh id; the old id names nothing any more. */
  function Rotated(w: World, id: nat, newId: nat): World {
    Store(w.(sessions := w.sessions - {id}, issued := w.issued + {id}), newId, Record(w, id))
  }

  function Loader(w: World, dbDown: bool): nat -> Loaded {
    uid => if dbDown then LoadError else if uid in w.users then User(w.users[uid]) else NoUser
  }

  function StampOf(cfg: Config, credential: Option<Credential>): Option<string> {
    match credential case None => None case Some(c) => Some(CredentialStamp(cfg.digest, c))
  }

  /** Fresh ids are random: an event that reuses one does not occur. */
  predicate Fresh(w: World, id: nat, newId: nat) { newId !in w.issued && newId !in w.sessions && newId != id }

  function Answer(cfg: Config, w: World, e: Event): (Session, Outcome)
    requires e.Request?
  {
    LoadUser(cfg, Record(w, e.id), Loader(w, e.dbDown), e.now, e.fault)
  }

  function Step(cfg: Config, w: World, e: Event): World {
    match e
    case Request(id, _, _, _) => Store(w, id, Answer(cfg, w, e).0)
    case Login(id, newId, uid, credential, remember, now, fault) =>
      if fault.Rotate? || !Fresh(w, id, newId) then w
      else Store(Rotated(w, id, newId), newId,
                 LoggedIn(Record(w, id), uid, StampOf(cfg, credential), remember, now, fault))
    case Rebind(id, credential, fault) => Store(w, id, Rebound(cfg, Record(w, id), credential, fault))
    case Logout(id, fails) => if fails then w else Store(w, id, EMPTY)
    case Regenerate(id, newId, fails) => if fails || !Fresh(w, id, newId) then w else Rotated(w, id, newId)
    case Evict(id) => w.(sessions := w.sessions - {id}, issued := w.issued + {id})
    case SetUser(uid, row) =>
      w.(users := match row case None => w.users - {uid} case Some(c) => w.users[uid := c])
  }

  /** The id a session goes by after an event. */
  function Follow(w: World, e: Event, id: nat): nat {
    match e
    case Login(from, newId, _, _, _, _, fault) =>
      if from == id && !fault.Rotate? && Fresh(w, from, newId) then newId else id
    case Regenerate(from, newId, fails) =>
      if from == id && !fails && Fresh(w, from, newId) then newId else id
    case _ => id
  }

  function Run(cfg: Config, w: World, events: seq<Event>): World
    decreases events
  {
    if events == [] then w else Run(cfg, Step(cfg, w, events[0]), events[1..])
  }

  /** The id a session goes by after a whole run. */
  function FollowAll(cfg: Config, w: World, events: seq<Event>, id: nat): nat
    decreases events
  {
    if events == [] then id
    else FollowAll(cfg, Step(cfg, w, events[0]), events[1..], Follow(w, events[0], id))
  }

  // ---------- what an event does to the session followed ----------

  /** A login on this session that gets past binding the user. */
  predicate BindsUser(w: World, e: Event, id: nat) {
    e.Login? && e.id == id && Fresh(w, id, e.newId) && !e.fault.Rotate? && !e.fault.InsertUser?
  }

  /** A login on this session that gets past stamping the time. */
  predicate StampsTime(w: World, e: Event, id: nat) {
    BindsUser(w, e, id) && !e.fault.InsertAuthAt?
  }

  /** A login or rebind on this session that writes a credential stamp. */
  predicate StampsCredential(w: World, e: Event, id: nat) {
    || (StampsTime(w, e, id) && e.credential.Some? && !e.fault.InsertStamp?)
    || (e.Rebind? && e.id == id && e.credential.Some? && !e.fault.InsertStamp?)
  }

  /** The first request of a session that has a user and no time. */
  predicate FirstTimed(w: World, e: Event, id: nat) {
    && e.Request? && e.id == id && Record(w, id).user.Some? && Record(w, id).authAt.None?
    && !e.fault.ReadUser? && !e.fault.ReadAuthAt? && !e.fault.WriteAuthAt?
  }

  /** The first authenticated request of an unstamped session whose user has a credential. */
  predicate FirstTracked(cfg: Config, w: World, e: Event, id: nat) {
    && e.Request? && e.id == id && Record(w, id).stamp.None? && Answer(cfg, w, e).1.Authenticated?
    && w.users[Answer(cfg, w, e).1.uid].Some?
  }

  /** The session record an id carries after an event, as a function of the one it carried before. */
  lemma StepRecord(cfg: Config, w: World, e: Event, id: nat)
    ensures var before, after := Record(w, id), Record(Step(cfg, w, e), Follow(w, e, id));
      match e
      case Request(x, _, _, _) => after == if x == id then Answer(cfg, w, e).0 else before
      case Login(x, newId, uid, credential, remember, now, fault) =>
        if x == id && Fresh(w, x, newId) then
          after == LoggedIn(before, uid, StampOf(cfg, credential), remember, now, fault)
        else newId != id || !Fresh(w, x, newId) ==> after == before
      case Rebind(x, credential, fault) => after == if x == id then Rebound(cfg, before, credential, fault) else before
      case Logout(x, fails) => after == if x == id && !fails then EMPTY else before
      case Regenerate(x, newId, fails) => newId != id || !Fresh(w, x, newId) ==> after == before
      case Evict(x) => after == if x == id then EMPTY else before
      case SetUser(_, _) => after == before
  {
  }

  /** Who the users are after an event: only writing or deleting a row changes them. */
  lemma StepUsers(cfg: Config, w: World, e: Event, uid: nat)
    ensures var users := Step(cfg, w, e).users;
      if e.SetUser? && e.uid == uid
      then (uid in users <==> e.row.Some?) && (e.row.Some? ==> users[uid] == e.row.value)
      else (uid in users <==> uid in w.users) && (uid in users ==> users[uid] == w.users[uid])
  {
  }

  /**
   * A session of a user who is gone is a visitor's, and while the database is down it is a failure; either
   * way its record is kept, unless it is past its lifetime.
   */
  lemma GoneOrUnreachable(cfg: Config, w: World, request: Event)
    requires request.Request? && request.fault.NoFault? && Record(w, request.id).user.Some?
    requires !Expired(cfg, Record(w, request.id), request.now)
    ensures request.dbDown ==> Answer(cfg, w, request).1 == Failed
    ensures !request.dbDown && Record(w, request.id).user.value !in w.users ==> Answer(cfg, w, request).1 == Anonymous
    ensures request.dbDown || Record(w, request.id).user.value !in w.users ==>
      Answer(cfg, w, request).0.user == Record(w, request.id).user
      && Answer(cfg, w, request).0.stamp == Record(w, request.id).stamp
  {
  }

  /** An id the session layer has issued; fresh ids are different from it. */
  predicate Known(w: World, id: nat) { id in w.issued }

  /** No event of the run satisfies `p` for the session, whatever id it goes by at that moment. */
  ghost predicate NeverOn(cfg: Config, w: World, events: seq<Event>, id: nat, p: (World, Event, nat) -> bool)
    decreases events
  {
    events != [] ==>
      && !p(w, events[0], id)
      && NeverOn(cfg, Step(cfg, w, events[0]), events[1..], Follow(w, events[0], id), p)
  }

  lemma StepKnown(cfg: Config, w: World, e: Event, id: nat)
    requires Known(w, id)
    ensures Known(Step(cfg, w, e), Follow(w, e, id))
  {
  }

  // ---------- where the entries of a session come from ----------

  /** The id a session went by before an event. */
  function Origin(w: World, e: Event, id: nat): nat {
    match e
    case Login(from, newId, _, _, _, _, fault) =>
      if newId == id && !fault.Rotate? && Fresh(w, from, newId) then from else id
    case Regenerate(from, newId, fails) =>
      if newId == id && !fails && Fresh(w, from, newId) then from else id
    case _ => id
  }

  /** Event `k` is the last one to touch the entry of the session that was `at` then and is `id` in the end. */
  ghost predicate LastWrite(cfg: Config, w: World, events: seq<Event>, k: nat, at: nat, id: nat,
                            touches: (World, Event, nat) -> bool, writes: (World, Event, nat) -> bool)
    requires k < |events|
  {
    var before, e := Run(cfg, w, events[..k]), events[k];
    var after, then_ := Step(cfg, before, e), Follow(before, e, at);
    && writes(before, e, at)
    && NeverOn(cfg, after, events[k + 1..], then_, touches)
    && FollowAll(cfg, after, events[k + 1..], then_) == id
  }

  /** Some event of the run was the last one to touch the entry. */
  ghost predicate Written(cfg: Config, w: World, events: seq<Event>, id: nat,
                          touches: (World, Event, nat) -> bool, writes: (World, Event, nat) -> bool)
  {
    exists k: nat, at: nat :: k < |events| && LastWrite(cfg, w, events, k, at, id, touches, writes)
  }

  /**
   * What `holds` of session `id` after a run was either so from the start, and no event touched it,
   * or was written by an event of the run, and none touched it since.
   */
  ghost predicate From(cfg: Config, w: World, events: seq<Event>, id: nat, holds: Session -> bool,
                       touches: (World, Event, nat) -> bool, writes: (World, Event, nat) -> bool)
  {
    || (exists first: nat :: FollowAll(cfg, w, events, first) == id && holds(Record(w, first))
                             && NeverOn(cfg, w, events, first, touches))
    || Written(cfg, w, events, id, touches, writes)
  }

  /** One event back: what holds of a session was written by the event, or held already. */
  ghost predicate Traced(cfg: Config, w: World, e: Event, id: nat, holds: Session -> bool,
                         touches: (World, Event, nat) -> bool, writes: (World, Event, nat) -> bool)
  {
    holds(Record(Step(cfg, w, e), id)) ==>
      var from := Origin(w, e, id);
      Follow(w, e, from) == id && if touches(w, e, from) then writes(w, e, from) else holds(Record(w, from))
  }

  lemma {:induction false} Provenance(cfg: Config, w: World, events: seq<Event>, id: nat, holds: Session -> bool,
                                      touches: (World, Event, nat) -> bool, writes: (World, Event, nat) -> bool)
    requires forall v: World, e: Event, i: nat :: Traced(cfg, v, e, i, holds, touches, writes)
    requires holds(Record(Run(cfg, w, events), id))
    ensures From(cfg, w, events, id, holds, touches, writes)
    decreases events
  {
    if events == [] {
      assert FollowAll(cfg, w, events, id) == id;
    } else {
      var e, rest := events[0], events[1..];
      var v := Step(cfg, w, e);
      Provenance(cfg, v, rest, id, holds, touches, writes);
      if first: nat :| FollowAll(cfg, v, rest, first) == id && holds(Record(v, first))
                       && NeverOn(cfg, v, rest, first, touches) {
        var from := Origin(w, e, first);
        assert Traced(cfg, w, e, first, holds, touches, writes);
        assert events[..0] == [];
        assert touches(w, e, from) ==> LastWrite(cfg, w, events, 0, from, id, touches, writes);
        assert FollowAll(cfg, w, events, from) == id;
      } else {
        var k: nat, at: nat :| k < |rest| && LastWrite(cfg, v, rest, k, at, id, touches, writes);
        assert events[..k + 1][1..] == rest[..k];
        assert LastWrite(cfg, w, events, k + 1, at, id, touches, writes);
      }
    }
  }

  /** Where no session existed before the run, an event of the run wrote the entry. */
  lemma FromNothing(cfg: Config, w: World, events: seq<Event>, id: nat, holds: Session -> bool,
                    touches: (World, Event, nat) -> bool, writes: (World, Event, nat) -> bool)
    requires w.sessions == map[] && !holds(EMPTY) && From(cfg, w, events, id, holds, touches, writes)
    ensures Written(cfg, w, events, id, touches, writes)
  {
  }

  lemma {:induction false} RunSnoc(cfg: Config, w: World, events: seq<Event>, e: Event)
    ensures Run(cfg, w, events + [e]) == Step(cfg, Run(cfg, w, events), e)
    decreases events
  {
    if events == [] {
      assert [e][1..] == [];
    } else {
      assert (events + [e])[1..] == events[1..] + [e];
      RunSnoc(cfg, Step(cfg, w, events[0]), events[1..], e);
    }
  }

  /** What any authenticated request leaves: a time within bounds and the stamp of the current credential. */
  lemma AuthenticatedRequest(cfg: Config, w: World, request: Event)
    requires request.Request? && Answer(cfg, w, request).1.Authenticated?
    ensures var before, after := Record(w, request.id), Record(Step(cfg, w, request), request.id);
      var uid := Answer(cfg, w, request).1.uid;
      && before.user == after.user == Some(uid) && uid in w.users
      && after.authAt.Some? && request.now - after.authAt.value <= cfg.maxAge
      && after.authAt == (if before.authAt.Some? then before.authAt else Some(request.now))
      && (w.users[uid].Some? ==>
            && after.stamp == Some(CredentialStamp(cfg.digest, w.users[uid].value))
            && (before.stamp == after.stamp || before.stamp == None))
      && (w.users[uid].None? ==> after.stamp == before.stamp)
  {
  }

  /** A request without a session fault and with the database up. */
  predicate Clean(e: Event) { e.Request? && e.fault.NoFault? && !e.dbDown }

  // ---------- who signed the visitor in ----------

  function UserIs(uid: nat): Session -> bool { (s: Session) => s.user == Some(uid) }

  function BindsThis(uid: nat): (World, Event, nat) -> bool {
    (w: World, e: Event, id: nat) => BindsUser(w, e, id) && e.uid == uid
  }

  /** The last login that bound a user to this session bound this one. */
  ghost predicate UserFrom(cfg: Config, w: World, events: seq<Event>, id: nat, uid: nat) {
    From(cfg, w, events, id, UserIs(uid), BindsUser, BindsThis(uid))
  }

  lemma UserTraced(cfg: Config, w: World, e: Event, id: nat, uid: nat)
    ensures Traced(cfg, w, e, id, UserIs(uid), BindsUser, BindsThis(uid))
  {
    StepRecord(cfg, w, e, Origin(w, e, id));
  }

  /** Over every run, an authenticated request answers for the user of the last login that bound one to its session. */
  lemma SignedInByLogin(cfg: Config, w: World, events: seq<Event>, request: Event)
    requires request.Request? && Answer(cfg, Run(cfg, w, events), request).1.Authenticated?
    ensures UserFrom(cfg, w, events, request.id, Answer(cfg, Run(cfg, w, events), request).1.uid)
  {
    var uid := Answer(cfg, Run(cfg, w, events), request).1.uid;
    forall v: World, e: Event, i: nat ensures Traced(cfg, v, e, i, UserIs(uid), BindsUser, BindsThis(uid)) {
      UserTraced(cfg, v, e, i, uid);
    }
    Provenance(cfg, w, events, request.id, UserIs(uid), BindsUser, BindsThis(uid));
  }

  // ---------- the absolute lifetime ----------

  predicate TouchesTime(w: World, e: Event, id: nat) { StampsTime(w, e, id) || FirstTimed(w, e, id) }

  function TimeIs(time: Millis): Session -> bool { (s: Session) => s.authAt == Some(time) }

  function StampsThisTime(time: Millis): (World, Event, nat) -> bool {
    (w: World, e: Event, id: nat) => TouchesTime(w, e, id) && e.now == time
  }

  /** The last login, or first request of an untimed session, to stamp a time on this session stamped this one. */
  ghost predicate TimeFrom(cfg: Config, w: World, events: seq<Event>, id: nat, time: Millis) {
    From(cfg, w, events, id, TimeIs(time), TouchesTime, StampsThisTime(time))
  }

  lemma TimeTraced(cfg: Config, w: World, e: Event, id: nat, time: Millis)
    ensures Traced(cfg, w, e, id, TimeIs(time), TouchesTime, StampsThisTime(time))
  {
    StepRecord(cfg, w, e, Origin(w, e, id));
  }

  lemma TimeHasAWriter(cfg: Config, w: World, events: seq<Event>, id: nat, time: Millis)
    requires Record(Run(cfg, w, events), id).authAt == Some(time)
    ensures TimeFrom(cfg, w, events, id, time)
  {
    forall v: World, e: Event, i: nat ensures Traced(cfg, v, e, i, TimeIs(time), TouchesTime, StampsThisTime(time)) {
      TimeTraced(cfg, v, e, i, time);
    }
    Provenance(cfg, w, events, id, TimeIs(time), TouchesTime, StampsThisTime(time));
  }

  /**
   * Activity never extends the lifetime. Over every run, failed logins included and however the clock
   * moves, a request is authenticated only within `maxAge` of the time stamped on its session by the last
   * login or, if it had none, by its first request; beyond it, a request empties the session whether or not the
   * database is up, unless the session operations it takes to find that out and to flush fail.
   */
  lemma LifetimeIsAbsolute(cfg: Config, w: World, events: seq<Event>, request: Event)
    requires request.Request?
    ensures var v := Run(cfg, w, events); var s := Record(v, request.id);
      && (Answer(cfg, v, request).1.Authenticated? ==>
            exists time: Millis :: request.now - time <= cfg.maxAge && TimeFrom(cfg, w, events + [request], request.id, time))
      && (s.user.Some? && s.authAt.Some? && request.now - s.authAt.value > cfg.maxAge ==>
            && TimeFrom(cfg, w, events, request.id, s.authAt.value)
            && (Answer(cfg, v, request) == (EMPTY, Anonymous) <==>
                  !request.fault.ReadUser? && !request.fault.ReadAuthAt? && !request.fault.FlushExpired?))
  {
    var v := Run(cfg, w, events);
    var s := Record(v, request.id);
    if Answer(cfg, v, request).1.Authenticated? {
      AuthenticatedRequest(cfg, v, request);
      RunSnoc(cfg, w, events, request);
      TimeHasAWriter(cfg, w, events + [request], request.id, Record(Step(cfg, v, request), request.id).authAt.value);
    }
    if s.authAt.Some? {
      TimeHasAWriter(cfg, w, events, request.id, s.authAt.value);
    }
  }

  // ---------- credential changes ----------

  predicate TouchesStamp(cfg: Config, w: World, e: Event, id: nat) {
    StampsCredential(w, e, id) || FirstTracked(cfg, w, e, id)
  }

  function StampTouch(cfg: Config): (World, Event, nat) -> bool {
    (w: World, e: Event, id: nat) => TouchesStamp(cfg, w, e, id)
  }

  /** The credential a stamping event binds: the one it was given, or the user's current one. */
  function BoundBy(cfg: Config, w: World, e: Event, id: nat): Option<Credential>
    requires TouchesStamp(cfg, w, e, id)
  {
    if e.Request? then w.users[Answer(cfg, w, e).1.uid] else e.credential
  }

  function StampIs(cfg: Config, c: Credential): Session -> bool {
    (s: Session) => s.stamp == Some(CredentialStamp(cfg.digest, c))
  }

  function BindsCredential(cfg: Config, c: Credential): (World, Event, nat) -> bool {
    (w: World, e: Event, id: nat) => TouchesStamp(cfg, w, e, id) && BoundBy(cfg, w, e, id) == Some(c)
  }

  /** The last login, rebind or first tracked request to stamp this session bound this credential. */
  ghost predicate StampFrom(cfg: Config, w: World, events: seq<Event>, id: nat, c: Credential) {
    From(cfg, w, events, id, StampIs(cfg, c), StampTouch(cfg), BindsCredential(cfg, c))
  }

  lemma StampStep(cfg: Config, w: World, e: Event, id: nat)
    ensures var from := Origin(w, e, id); var stamp := Record(Step(cfg, w, e), id).stamp;
      stamp.Some? ==> Follow(w, e, from) == id
                      && if TouchesStamp(cfg, w, e, from) then stamp == StampOf(cfg, BoundBy(cfg, w, e, from))
                         else Record(w, from).stamp == stamp
  {
    StepRecord(cfg, w, e, Origin(w, e, id));
  }

  lemma StampTraced(cfg: Config, w: World, e: Event, id: nat, c: Credential)
    requires Injective(cfg.digest)
    ensures Traced(cfg, w, e, id, StampIs(cfg, c), StampTouch(cfg), BindsCredential(cfg, c))
  {
    var from := Origin(w, e, id);
    StampStep(cfg, w, e, id);
    if TouchesStamp(cfg, w, e, from) {
      StampsDistinct(cfg.digest, c, BoundBy(cfg, w, e, from).value);
    }
  }

  lemma StampHasAWriter(cfg: Config, w: World, events: seq<Event>, id: nat, c: Credential)
    requires Injective(cfg.digest) && Record(Run(cfg, w, events), id).stamp == Some(CredentialStamp(cfg.digest, c))
    ensures StampFrom(cfg, w, events, id, c)
  {
    forall v: World, e: Event, i: nat
      ensures Traced(cfg, v, e, i, StampIs(cfg, c), StampTouch(cfg), BindsCredential(cfg, c))
    {
      StampTraced(cfg, v, e, i, c);
    }
    Provenance(cfg, w, events, id, StampIs(cfg, c), StampTouch(cfg), BindsCredential(cfg, c));
  }

  /**
   * Over every run, a user with a credential is authenticated only if the last login, rebind or first
   * tracked request to stamp the session bound the user's current credential; a request in time that finds
   * the stamp of another one empties the session, unless the database or a session operation on the way fails.
   */
  lemma StampMustBeCurrent(cfg: Config, w: World, events: seq<Event>, request: Event, uid: nat, c: Credential)
    requires Injective(cfg.digest) && request.Request?
    requires var v := Run(cfg, w, events);
      Record(v, request.id).user == Some(uid) && uid in v.users && v.users[uid] == Some(c)
    ensures var v := Run(cfg, w, events); var s := Record(v, request.id);
      && (Answer(cfg, v, request).1.Authenticated? ==> StampFrom(cfg, w, events + [request], request.id, c))
      && (s.stamp.Some? && s.stamp != Some(CredentialStamp(cfg.digest, c))
          && (s.authAt.Some? ==> request.now - s.authAt.value <= cfg.maxAge) ==>
            (Answer(cfg, v, request) == (EMPTY, Anonymous) <==>
              && !request.dbDown && !request.fault.ReadUser? && !request.fault.ReadAuthAt?
              && !request.fault.ReadStamp? && !request.fault.FlushMismatch?
              && (request.fault.WriteAuthAt? ==> s.authAt.Some?)))
  {
    var v := Run(cfg, w, events);
    if Answer(cfg, v, request).1.Authenticated? {
      AuthenticatedRequest(cfg, v, request);
      RunSnoc(cfg, w, events, request);
      StampHasAWriter(cfg, w, events + [request], request.id, c);
    }
  }

  /**
   * The whole account of an authenticated request, over every run that starts without sessions: one event
   * of the run bound its user, one stamped a time no further back than `maxAge`, and one bound the user's
   * current credential; each was the last to touch that entry of the session, under whatever id it went by.
   */
  lemma AuthenticatedIsAccountedFor(cfg: Config, w: World, events: seq<Event>, request: Event, uid: nat)
    requires Injective(cfg.digest) && w.sessions == map[]
    requires request.Request? && Answer(cfg, Run(cfg, w, events), request).1 == Authenticated(uid)
    ensures Written(cfg, w, events, request.id, BindsUser, BindsThis(uid))
    ensures exists time: Millis :: request.now - time <= cfg.maxAge
              && Written(cfg, w, events + [request], request.id, TouchesTime, StampsThisTime(time))
    ensures var users := Run(cfg, w, events).users; uid in users && (users[uid].Some? ==>
              Written(cfg, w, events + [request], request.id, StampTouch(cfg), BindsCredential(cfg, users[uid].value)))
  {
    SignedInByLogin(cfg, w, events, request);
    FromNothing(cfg, w, events, request.id, UserIs(uid), BindsUser, BindsThis(uid));
    TimeAccountedFor(cfg, w, events, request);
    CredentialAccountedFor(cfg, w, events, request, uid);
  }

  lemma TimeAccountedFor(cfg: Config, w: World, events: seq<Event>, request: Event)
    requires w.sessions == map[] && request.Request? && Answer(cfg, Run(cfg, w, events), request).1.Authenticated?
    ensures exists time: Millis :: request.now - time <= cfg.maxAge
              && Written(cfg, w, events + [request], request.id, TouchesTime, StampsThisTime(time))
  {
    LifetimeIsAbsolute(cfg, w, events, request);
    var time: Millis :| TimeFrom(cfg, w, events + [request], request.id, time) && request.now - time <= cfg.maxAge;
    FromNothing(cfg, w, events + [request], request.id, TimeIs(time), TouchesTime, StampsThisTime(time));
  }

  lemma CredentialAccountedFor(cfg: Config, w: World, events: seq<Event>, request: Event, uid: nat)
    requires Injective(cfg.digest) && w.sessions == map[]
    requires request.Request? && Answer(cfg, Run(cfg, w, events), request).1 == Authenticated(uid)
    ensures var users := Run(cfg, w, events).users; uid in users && (users[uid].Some? ==>
              Written(cfg, w, events + [request], request.id, StampTouch(cfg), BindsCredential(cfg, users[uid].value)))
  {
    var v := Run(cfg, w, events);
    AuthenticatedRequest(cfg, v, request);
    if v.users[uid].Some? {
      var c := v.users[uid].value;
      StampMustBeCurrent(cfg, w, events, request, uid, c);
      FromNothing(cfg, w, events + [request], request.id, StampIs(cfg, c), StampTouch(cfg), BindsCredential(cfg, c));
    }
  }

  // ---------- refused sessions stay refused ----------

  lemma {:induction false} UnboundSticks(cfg: Config, w: World, events: seq<Event>, id: nat)
    requires Known(w, id) && Record(w, id).user.None? && NeverOn(cfg, w, events, id, BindsUser)
    ensures Record(Run(cfg, w, events), FollowAll(cfg, w, events, id)).user.None?
    decreases events
  {
    if events != [] {
      StepRecord(cfg, w, events[0], id);
      StepKnown(cfg, w, events[0], id);
      UnboundSticks(cfg, Step(cfg, w, events[0]), events[1..], Follow(w, events[0], id));
    }
  }

  /** Once its record holds no user, nothing but a login that binds one makes a session answer for a user. */
  lemma RefusedStaysRefused(cfg: Config, w: World, events: seq<Event>, id: nat, request: Event)
    requires Known(w, id) && Record(w, id).user.None? && NeverOn(cfg, w, events, id, BindsUser)
    requires request.Request? && request.id == FollowAll(cfg, w, events, id)
    ensures !Answer(cfg, Run(cfg, w, events), request).1.Authenticated?
  {
    UnboundSticks(cfg, w, events, id);
  }

  /** A request that is refused for age or for its stamp leaves nothing to revive. */
  lemma RefusedForGood(cfg: Config, w: World, refused: Event, events: seq<Event>, request: Event)
    requires refused.Request? && Answer(cfg, w, refused) == (EMPTY, Anonymous)
    requires NeverOn(cfg, Step(cfg, w, refused), events, refused.id, BindsUser)
    requires request.Request? && request.id == FollowAll(cfg, Step(cfg, w, refused), events, refused.id)
    ensures !Answer(cfg, Run(cfg, Step(cfg, w, refused), events), request).1.Authenticated?
  {
    RefusedStaysRefused(cfg, Step(cfg, w, refused), events, refused.id, request);
  }

  /** The event moves session `id` to a fresh id. */
  predicate Rotates(w: World, e: Event, id: nat) {
    || (e.Login? && e.id == id && Fresh(w, id, e.newId) && !e.fault.Rotate?)
    || (e.Regenerate? && e.id == id && Fresh(w, id, e.newId) && !e.fails)
  }

  /** The id a login or a regeneration rotated away from answers for nobody, until someone logs in on it again. */
  lemma OldIdIsDead(cfg: Config, w: World, rotation: Event, id: nat, events: seq<Event>, request: Event)
    requires Rotates(w, rotation, id)
    requires NeverOn(cfg, Step(cfg, w, rotation), events, id, BindsUser)
    requires request.Request? && request.id == FollowAll(cfg, Step(cfg, w, rotation), events, id)
    ensures !Answer(cfg, Run(cfg, Step(cfg, w, rotation), events), request).1.Authenticated?
  {
    RefusedStaysRefused(cfg, Step(cfg, w, rotation), events, id, request);
  }

  /** After a logout the session answers for nobody, under whatever id, until someone logs in on it again. */
  lemma LoggedOutIsOut(cfg: Config, w: World, id: nat, events: seq<Event>, request: Event)
    requires NeverOn(cfg, Step(cfg, w, Logout(id, false)), events, id, BindsUser)
    requires request.Request? && request.id == FollowAll(cfg, Step(cfg, w, Logout(id, false)), events, id)
    ensures !Answer(cfg, Run(cfg, Step(cfg, w, Logout(id, false)), events), request).1.Authenticated?
  {
    RefusedStaysRefused(cfg, Step(cfg, w, Logout(id, false)), events, id, request);
  }

  /**
   * The boundary of a login that fails part-way, whatever the session carried before. One that got past
   * binding the user lets the next clean request in exactly when the user exists and the time and the
   * stamp that count, its own as far as it got and otherwise those it found, are in order; one that did
   * not get so far leaves every next request as it was.
   */
  lemma FailedLoginBoundary(cfg: Config, w: World, login: Event, request: Event)
    requires login.Login? && Fresh(w, login.id, login.newId)
    requires request.Request? && request.id == Follow(w, login, login.id)
    ensures var answer := Answer(cfg, Step(cfg, w, login), request);
      && (BindsUser(w, login, login.id) && Clean(request) ==>
            && (answer.1 == Authenticated(login.uid) <==> LetsIn(cfg, w, login, request.now))
            && (answer.1 == Anonymous <==> !LetsIn(cfg, w, login, request.now)))
      && (!BindsUser(w, login, login.id) ==>
            answer == Answer(cfg, w, Request(login.id, request.now, request.dbDown, request.fault)))
  {
    LoginLeaves(cfg, w, login);
  }

  /** The login asked to be remembered and got as far as writing it down. */
  predicate RemembersMe(w: World, login: Event)
    requires login.Login?
  {
    && login.remember && StampsTime(w, login, login.id) && !login.fault.InsertRemember?
    && (login.credential.Some? ==> !login.fault.InsertStamp?)
  }

  /** What a login leaves in its session, and that it touches no user. */
  lemma LoginLeaves(cfg: Config, w: World, login: Event)
    requires login.Login? && Fresh(w, login.id, login.newId)
    ensures Step(cfg, w, login).users == w.users
    ensures var s, t := Record(w, login.id), Record(Step(cfg, w, login), Follow(w, login, login.id));
      if !BindsUser(w, login, login.id) then t == s
      else
        && t.user == Some(login.uid)
        && t.authAt == (if StampsTime(w, login, login.id) then Some(login.now) else s.authAt)
        && t.stamp == (if StampsCredential(w, login, login.id) then StampOf(cfg, login.credential) else s.stamp)
        && t.remember == (s.remember || RemembersMe(w, login))
  {
    StepRecord(cfg, w, login, login.id);
  }

  /** The user exists, and the time and the stamp that count after the login are in order. */
  predicate LetsIn(cfg: Config, w: World, login: Event, now: Millis)
    requires login.Login?
  {
    var s := Record(w, login.id);
    var at := if StampsTime(w, login, login.id) then Some(login.now) else s.authAt;
    var stamp := if StampsCredential(w, login, login.id) then StampOf(cfg, login.credential) else s.stamp;
    && login.uid in w.users
    && (at.Some? ==> now - at.value <= cfg.maxAge)
    && (w.users[login.uid].Some? && stamp.Some? ==> stamp == StampOf(cfg, w.users[login.uid]))
  }

  // ---------- a rebound session survives ----------

  /** Nothing in the event ends or rebinds the session, or changes its user's credential. */
  predicate Quiet(cfg: Config, e: Event, id: nat, uid: nat, at: Millis, c: Credential) {
    match e
    case Request(x, now, _, _) => x == id ==> now - at <= cfg.maxAge
    case Login(x, _, _, _, _, _, _) => x != id
    case Rebind(x, _, _) => x != id
    case Logout(x, _) => x != id
    case Regenerate(_, _, _) => true
    case Evict(x) => x != id
    case SetUser(u, row) => u == uid ==> row == Some(Some(c))
  }

  ghost predicate QuietRun(cfg: Config, w: World, events: seq<Event>, id: nat, uid: nat, at: Millis, c: Credential)
    decreases events
  {
    events != [] ==>
      && Quiet(cfg, events[0], id, uid, at, c)
      && QuietRun(cfg, Step(cfg, w, events[0]), events[1..], Follow(w, events[0], id), uid, at, c)
  }

  /** The record is bound to the user's current credential. */
  predicate BoundTo(cfg: Config, w: World, id: nat, uid: nat, at: Millis, c: Credential) {
    var s := Record(w, id);
    && s.user == Some(uid) && s.authAt == Some(at) && s.stamp == Some(CredentialStamp(cfg.digest, c))
    && uid in w.users && w.users[uid] == Some(c)
  }

  lemma QuietStep(cfg: Config, w: World, e: Event, id: nat, uid: nat, at: Millis, c: Credential)
    requires Known(w, id) && BoundTo(cfg, w, id, uid, at, c) && Quiet(cfg, e, id, uid, at, c)
    ensures BoundTo(cfg, Step(cfg, w, e), Follow(w, e, id), uid, at, c)
  {
    StepRecord(cfg, w, e, id);
  }

  /** Whatever others do, a session bound to the current credential keeps authenticating within its lifetime. */
  lemma {:induction false} BoundSessionSurvives(cfg: Config, w: World, events: seq<Event>, id: nat, uid: nat, at: Millis,
                                                c: Credential, request: Event)
    requires Known(w, id) && BoundTo(cfg, w, id, uid, at, c) && QuietRun(cfg, w, events, id, uid, at, c)
    requires Clean(request) && request.id == FollowAll(cfg, w, events, id) && request.now - at <= cfg.maxAge
    ensures Answer(cfg, Run(cfg, w, events), request).1 == Authenticated(uid)
    decreases events
  {
    if events != [] {
      QuietStep(cfg, w, events[0], id, uid, at, c);
      StepKnown(cfg, w, events[0], id);
      BoundSessionSurvives(cfg, Step(cfg, w, events[0]), events[1..], Follow(w, events[0], id), uid, at, c, request);
    }
  }

  /**
   * "Change my password and sign my other devices out": one rebind keeps this session. Another session of
   * the user lives on exactly when it is in time and not stamped with anything but the new credential; so
   * one stamped with the old credential ends, while one never stamped is stamped anew.
   */
  lemma PasswordChangeSignsOthersOut(cfg: Config, w: World, mine: nat, other: nat, uid: nat, at: Millis,
                                     old_: Credential, new_: Credential, now: Millis)
    requires Injective(cfg.digest) && mine != other && old_ != new_
    requires BoundTo(cfg, w, mine, uid, at, old_) && Record(w, other).user == Some(uid)
    requires now - at <= cfg.maxAge
    ensures var v := Run(cfg, w, [SetUser(uid, Some(Some(new_))), Rebind(mine, Some(new_), NoFault)]);
      var s := Record(w, other); var answer := Answer(cfg, v, Request(other, now, false, NoFault));
      && Answer(cfg, v, Request(mine, now, false, NoFault)).1 == Authenticated(uid)
      && (answer.1 == Authenticated(uid) <==>
            && (s.authAt.Some? ==> now - s.authAt.value <= cfg.maxAge)
            && (s.stamp.Some? ==> s.stamp == StampOf(cfg, Some(new_))))
      && (answer.1 != Authenticated(uid) ==> answer == (EMPTY, Anonymous))
      && (s.stamp == StampOf(cfg, Some(old_)) ==> answer == (EMPTY, Anonymous))
  {
    var e, f := SetUser(uid, Some(Some(new_))), Rebind(mine, Some(new_), NoFault);
    var u := Step(cfg, w, e);
    var v := Step(cfg, u, f);
    assert Run(cfg, w, [e, f]) == v by {
      assert [e, f][1..] == [f] && [f][1..] == [];
      assert Run(cfg, u, [f]) == v;
    }
    StampsDistinct(cfg.digest, old_, new_);
  }
}
