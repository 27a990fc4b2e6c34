/** The memo key of `src/dx/request_cache_store.rs`. A text is its UTF-8 bytes, one character per byte. */
module RequestCacheKey {

  /** A parameter name; all that matters is that no Rust identifier holds an equals sign. */
  type Ident = s: string | '=' !in s witness ""

  datatype Field = Field(name: Ident, value: string)

  function DigitChar(d: int): char
    requires 0 <= d < 10
  {
    (d + '0' as int) as char
  }

  /** The decimal spelling of a length. */
  function Decimal(n: nat): (s: string)
    ensures s != [] && forall c <- s :: '0' <= c <= '9'
  {
    if n < 10 then [DigitChar(n)] else Decimal(n / 10) + [DigitChar(n % 10)]
  }

  lemma {:induction false} DecimalInjective(m: nat, n: nat)
    requires Decimal(m) == Decimal(n)
    ensures m == n
  {
    var a, b := Decimal(m), Decimal(n);
    assert a[|a| - 1] == b[|b| - 1];
    if m >= 10 && n >= 10 {
      assert a[..|a| - 1] == Decimal(m / 10) && b[..|b| - 1] == Decimal(n / 10);
      DecimalInjective(m / 10, n / 10);
    }
  }

  /** `name=length:value;` */
  function RenderField(f: Field): string {
    f.name + "=" + (Decimal(|f.value|) + ":" + (f.value + ";"))
  }

  function Render(fields: seq<Field>): string {
    if fields == [] then "" else RenderField(fields[0]) + Render(fields[1..])
  }

  /** The documented case: a value that looks like a field boundary does not make one. */
  lemma BoundaryIsNotForged()
    ensures Render([Field("a", "1;b=1:2;")]) == "a=8:1;b=1:2;;"
    ensures Render([Field("a", "1"), Field("b", "2")]) == "a=1:1;b=1:2;"
  {
    var f, g := Field("a", "1"), Field("b", "2");
    assert [f, g][1..] == [g] && [g][1..] == [];
    assert [Field("a", "1;b=1:2;")][1..] == [];
    assert Decimal(8) == "8" && Decimal(1) == "1";
  }

  /** The number a decimal text spells. */
  function DecimalValue(s: string): int {
    if s == [] then 0 else 10 * DecimalValue(s[..|s| - 1]) + (s[|s| - 1] as int - '0' as int)
  }

  lemma {:induction false} DecimalSpells(n: nat)
    ensures DecimalValue(Decimal(n)) == n
  {
    var s := Decimal(n);
    if n < 10 {
      assert s[..0] == [];
    } else {
      DecimalSpells(n / 10);
      assert s[..|s| - 1] == Decimal(n / 10);
    }
  }

  /** Reading up to the first separator is unambiguous. */
  lemma {:induction false} SplitOnce(c: char, x: string, r: string, y: string, s: string)
    requires c !in x && c !in y && x + [c] + r == y + [c] + s
    ensures x == y && r == s
  {
    var a, b := x + [c] + r, y + [c] + s;
    assert a[|x|] == c && b[|y|] == c;
    assert forall i :: 0 <= i < |x| ==> a[i] == x[i] && a[i] != c;
    assert forall i :: 0 <= i < |y| ==> b[i] == y[i] && b[i] != c;
    assert |x| == |y|;
    assert x == a[..|x|] && y == b[..|y|] && r == a[|x| + 1..] && s == b[|y| + 1..];
  }

  lemma FieldInjective(f: Field, rest: string, g: Field, more: string)
    requires RenderField(f) + rest == RenderField(g) + more
    ensures f == g && rest == more
  {
    var r := Decimal(|f.value|) + ":" + (f.value + ";" + rest);
    var s := Decimal(|g.value|) + ":" + (g.value + ";" + more);
    assert RenderField(f) + rest == f.name + ['='] + r;
    assert RenderField(g) + more == g.name + ['='] + s;
    SplitOnce('=', f.name, r, g.name, s);
    SplitOnce(':', Decimal(|f.value|), f.value + ";" + rest, Decimal(|g.value|), g.value + ";" + more);
    DecimalInjective(|f.value|, |g.value|);
    var u, v := f.value + ";" + rest, g.value + ";" + more;
    assert u[..|f.value|] == f.value && v[..|g.value|] == g.value;
    assert u[|f.value| + 1..] == rest && v[|g.value| + 1..] == more;
  }

  /** No value can forge a field boundary: rendered keys are equal only for equal field lists. */
  lemma {:induction false} RenderInjective(a: seq<Field>, b: seq<Field>)
    ensures Render(a) == Render(b) <==> a == b
  {
    if Render(a) == Render(b) {
      if a == [] || b == [] {
        assert forall f: Field :: |RenderField(f)| > 0;
      } else {
        FieldInjective(a[0], Render(a[1..]), b[0], Render(b[1..]));
        RenderInjective(a[1..], b[1..]);
        assert a == [a[0]] + a[1..] && b == [b[0]] + b[1..];
      }
    }
  }
}

/** The wrapper `#[request_cache]` generates, after `macros/src/request_cache.rs`. */
module RequestCache {
  import opened Wrappers
  import opened RequestCacheKey

  /** A resolver call: which function, and its arguments by parameter name as they are displayed. */
  datatype Call = Call(fn: nat, args: map<string, string>)

  datatype Outcome = Good(value: nat) | Bad(error: nat)

  /** What a body does next, knowing the results of the nested calls it has made so far. */
  datatype Move = Finish(outcome: Outcome) | Invoke(call: Call)

  /** The attribute arguments and return type of every resolver, and the bodies. */
  datatype Program = Program(
    name: nat -> string,
    keyFields: nat -> seq<Ident>,
    okType: nat -> nat,
    next: (Call, seq<Outcome>) -> Move)

  datatype Key = Key(resolver: string, fields: string)

  /** An argument as it is displayed. */
  function Shown(c: Call, name: string): string { if name in c.args then c.args[name] else "" }

  function FieldsOf(p: Program, c: Call): (r: seq<Field>)
    ensures |r| == |p.keyFields(c.fn)|
  {
    var names := p.keyFields(c.fn);
    seq(|names|, i requires 0 <= i < |names| => Field(names[i], Shown(c, names[i])))
  }

  function KeyOf(p: Program, c: Call): Key { Key(p.name(c.fn), Render(FieldsOf(p, c))) }

  /** As the attribute documents it: the same resolver name, and the same key fields with the same values. */
  ghost predicate SameKey(p: Program, c: Call, d: Call) {
    && p.name(c.fn) == p.name(d.fn) && p.keyFields(c.fn) == p.keyFields(d.fn)
    && forall n <- p.keyFields(c.fn) ::
         (if n in c.args then c.args[n] else "") == (if n in d.args then d.args[n] else "")
  }

  /** Two calls share a memo key exactly when they agree on the name and on the key fields. */
  lemma KeyIsItsFields(p: Program, c: Call, d: Call)
    ensures KeyOf(p, c) == KeyOf(p, d) <==> SameKey(p, c, d)
  {
    var names, others := p.keyFields(c.fn), p.keyFields(d.fn);
    var a, b := FieldsOf(p, c), FieldsOf(p, d);
    RenderInjective(a, b);
    if a == b {
      assert |names| == |a| == |b| == |others|;
      forall i | 0 <= i < |names| ensures names[i] == others[i] && Shown(c, names[i]) == Shown(d, names[i]) {
        assert a[i] == b[i];
      }
      assert names == others;
    }
    if SameKey(p, c, d) {
      forall i | 0 <= i < |a| ensures a[i] == b[i] {
        assert names[i] in names;
      }
      assert a == b;
    }
  }

  // ---------- the program without the attribute ----------

  /** Run a body from its nested results so far; `None` when `fuel` runs out. */
  function Plain(p: Program, fuel: nat, c: Call, results: seq<Outcome>): Option<Outcome> {
    if fuel == 0 then None
    else
      match p.next(c, results)
      case Finish(o) => Some(o)
      case Invoke(d) =>
        match Plain(p, fuel - 1, d, [])
        case None => None
        case Some(o) => Plain(p, fuel - 1, c, results + [o])
  }

  /** The call ends with this outcome, given time enough. */
  ghost predicate Yields(p: Program, c: Call, o: Outcome) {
    exists fuel: nat :: Plain(p, fuel, c, []) == Some(o)
  }

  lemma {:induction false} PlainMonotone(p: Program, f: nat, g: nat, c: Call, results: seq<Outcome>)
    requires f <= g && Plain(p, f, c, results).Some?
    ensures Plain(p, g, c, results) == Plain(p, f, c, results)
    decreases f
  {
    match p.next(c, results)
    case Finish(_) =>
    case Invoke(d) =>
      PlainMonotone(p, f - 1, g - 1, d, []);
      PlainMonotone(p, f - 1, g - 1, c, results + [Plain(p, f - 1, d, []).value]);
  }

  /** A call has at most one outcome. */
  lemma YieldsOne(p: Program, c: Call, o: Outcome, o': Outcome)
    requires Yields(p, c, o) && Yields(p, c, o')
    ensures o == o'
  {
    var f: nat :| Plain(p, f, c, []) == Some(o);
    var g: nat :| Plain(p, g, c, []) == Some(o');
    if f <= g {
      PlainMonotone(p, f, g, c, []);
    } else {
      PlainMonotone(p, g, f, c, []);
    }
  }

  // ---------- the program with it ----------

  datatype Event = Ran(key: Key) | Kept(key: Key)

  /** The store of one request: values under their key with the type they were stored at, and a history. */
  datatype Memo = Memo(entries: map<Key, (nat, nat)>, log: seq<Event>)

  /** A stored value of another type reads as a miss. */
  function Hit(p: Program, m: Memo, c: Call): Option<nat> {
    var k := KeyOf(p, c);
    if k in m.entries && m.entries[k].0 == p.okType(c.fn) then Some(m.entries[k].1) else None
  }

  /** Only a success is kept. */
  function Keep(p: Program, m: Memo, c: Call, o: Outcome): Memo {
    match o
    case Bad(_) => m
    case Good(v) => Memo(m.entries[KeyOf(p, c) := (p.okType(c.fn), v)], m.log + [Kept(KeyOf(p, c))])
  }

  function Started(p: Program, m: Memo, c: Call): Memo { m.(log := m.log + [Ran(KeyOf(p, c))]) }

  /** The generated wrapper: look, else run the body and keep a success. */
  function Wrapped(p: Program, fuel: nat, c: Call, m: Memo): Option<(Outcome, Memo)>
    decreases fuel, 1
  {
    match Hit(p, m, c)
    case Some(v) => Some((Good(v), m))
    case None =>
      match Body(p, fuel, c, [], Started(p, m, c))
      case None => None
      case Some((o, after)) => Some((o, Keep(p, after, c, o)))
  }

  /** The uncached body, whose nested calls go through their wrappers and the same store. */
  function Body(p: Program, fuel: nat, c: Call, results: seq<Outcome>, m: Memo): Option<(Outcome, Memo)>
    decreases fuel, 0
  {
    if fuel == 0 then None
    else
      match p.next(c, results)
      case Finish(o) => Some((o, m))
      case Invoke(d) =>
        match Wrapped(p, fuel - 1, d, m)
        case None => None
        case Some((o, after)) => Body(p, fuel - 1, c, results + [o], after)
  }

  /** The store as an object that the wrapper reads and inserts into. */
  class Store {
    var entries: map<Key, (nat, nat)>
    ghost var log: seq<Event>

    ghost function Value(): Memo reads this { Memo(entries, log) }

    constructor ()
      ensures Value() == Memo(map[], [])
    {
      entries := map[];
      log := [];
    }

    method CallWrapped(p: Program, fuel: nat, c: Call) returns (r: Option<Outcome>)
      modifies this
      ensures var w := Wrapped(p, fuel, c, old(Value()));
        (r.Some? <==> w.Some?) && (r.Some? ==> r.value == w.value.0 && Value() == w.value.1)
      decreases fuel, 1
    {
      var key := KeyOf(p, c);
      if key in entries && entries[key].0 == p.okType(c.fn) {
        return Some(Good(entries[key].1));
      }
      log := log + [Ran(key)];
      r := CallBody(p, fuel, c);
      if r.Some? && r.value.Good? {
        entries := entries[key := (p.okType(c.fn), r.value.value)];
        log := log + [Kept(key)];
      }
    }

    method CallBody(p: Program, fuel: nat, c: Call) returns (r: Option<Outcome>)
      modifies this
      ensures var w := Body(p, fuel, c, [], old(Value()));
        (r.Some? <==> w.Some?) && (r.Some? ==> r.value == w.value.0 && Value() == w.value.1)
      decreases fuel, 0
    {
      var results: seq<Outcome> := [];
      var left: nat := fuel;
      while left > 0
        invariant left <= fuel
        invariant Body(p, fuel, c, [], old(Value())) == Body(p, left, c, results, Value())
      {
        match p.next(c, results) {
          case Finish(o) =>
            return Some(o);
          case Invoke(d) =>
            left := left - 1;
            var nested := CallWrapped(p, left, d);
            if nested.None? {
              return None;
            }
            results := results + [nested.value];
        }
      }
      r := None;
    }
  }

  // ---------- the rewrite preserves meaning ----------

  /** A resolver's outcome is a function of its name, its key fields and the type of its value. */
  ghost predicate Functional(p: Program) {
    forall c: Call, d: Call, o: Outcome :: SameMemo(p, c, d) && Yields(p, c, o) ==> Yields(p, d, o)
  }

  ghost predicate SameMemo(p: Program, c: Call, d: Call) {
    SameKey(p, c, d) && p.okType(c.fn) == p.okType(d.fn)
  }

  /** What is kept for a call is found by the calls that share its key and its type, and by no others. */
  lemma KeptForItsKey(p: Program, m: Memo, c: Call, o: Outcome, d: Call)
    ensures !SameKey(p, c, d) || o.Bad? ==> Hit(p, Keep(p, m, c, o), d) == Hit(p, m, d)
    ensures SameKey(p, c, d) && o.Good? ==>
      Hit(p, Keep(p, m, c, o), d) == if p.okType(c.fn) == p.okType(d.fn) then Some(o.value) else None
  {
    KeyIsItsFields(p, c, d);
  }

  /** Every stored value is the success every call with its key and type would end with. */
  ghost predicate Sound(p: Program, m: Memo) {
    forall c: Call :: Hit(p, m, c).Some? ==> Yields(p, c, Good(Hit(p, m, c).value))
  }

  lemma KeepSound(p: Program, m: Memo, c: Call, o: Outcome)
    requires Functional(p) && Sound(p, m) && Yields(p, c, o)
    ensures Sound(p, Keep(p, m, c, o))
  {
    var n := Keep(p, m, c, o);
    forall d: Call | Hit(p, n, d).Some? ensures Yields(p, d, Good(Hit(p, n, d).value)) {
      KeptForItsKey(p, m, c, o, d);
      if o.Good? && SameKey(p, c, d) {
        assert SameMemo(p, c, d);
      }
    }
  }

  lemma StartedSound(p: Program, m: Memo, c: Call)
    requires Sound(p, m)
    ensures Sound(p, Started(p, m, c))
  {
    var n := Started(p, m, c);
    assert forall d: Call :: Hit(p, n, d) == Hit(p, m, d);
  }

  /** The body from some point on ends with `o` in the plain program. */
  ghost predicate Continues(p: Program, c: Call, results: seq<Outcome>, o: Outcome) {
    exists fuel: nat :: Plain(p, fuel, c, results) == Some(o)
  }

  lemma ContinueAfter(p: Program, c: Call, results: seq<Outcome>, d: Call, o: Outcome, end: Outcome)
    requires p.next(c, results) == Invoke(d) && Yields(p, d, o) && Continues(p, c, results + [o], end)
    ensures Continues(p, c, results, end)
  {
    var f: nat :| Plain(p, f, d, []) == Some(o);
    var g: nat :| Plain(p, g, c, results + [o]) == Some(end);
    var h := if f < g then g else f;
    PlainMonotone(p, f, h, d, []);
    PlainMonotone(p, g, h, c, results + [o]);
    assert Plain(p, h + 1, c, results) == Some(end);
  }

  /** What a wrapped call answers is what the plain call answers, and the store stays sound. */
  lemma {:induction false} WrappedIsPlain(p: Program, fuel: nat, c: Call, m: Memo)
    requires Functional(p) && Sound(p, m) && Wrapped(p, fuel, c, m).Some?
    ensures Yields(p, c, Wrapped(p, fuel, c, m).value.0)
    ensures Sound(p, Wrapped(p, fuel, c, m).value.1)
    decreases fuel, 1
  {
    if Hit(p, m, c).None? {
      StartedSound(p, m, c);
      BodyIsPlain(p, fuel, c, [], Started(p, m, c));
      var (o, after) := Body(p, fuel, c, [], Started(p, m, c)).value;
      assert Yields(p, c, o);
      KeepSound(p, after, c, o);
    }
  }

  lemma {:induction false} BodyIsPlain(p: Program, fuel: nat, c: Call, results: seq<Outcome>, m: Memo)
    requires Functional(p) && Sound(p, m) && Body(p, fuel, c, results, m).Some?
    ensures Continues(p, c, results, Body(p, fuel, c, results, m).value.0)
    ensures Sound(p, Body(p, fuel, c, results, m).value.1)
    decreases fuel, 0
  {
    match p.next(c, results)
    case Finish(o) =>
      assert Plain(p, 1, c, results) == Some(o);
    case Invoke(d) =>
      WrappedIsPlain(p, fuel - 1, d, m);
      var (o, after) := Wrapped(p, fuel - 1, d, m).value;
      BodyIsPlain(p, fuel - 1, c, results + [o], after);
      ContinueAfter(p, c, results, d, o, Body(p, fuel, c, results, m).value.0);
  }

  /** Memoizing never costs an answer: a call the plain program finishes, the wrapped one finishes as soon. */
  lemma {:induction false} PlainIsWrapped(p: Program, fuel: nat, c: Call, m: Memo)
    requires Functional(p) && Sound(p, m) && Plain(p, fuel, c, []).Some?
    ensures Wrapped(p, fuel, c, m).Some? && Wrapped(p, fuel, c, m).value.0 == Plain(p, fuel, c, []).value
    decreases fuel, 1
  {
    var o := Plain(p, fuel, c, []).value;
    assert Yields(p, c, o);
    if Hit(p, m, c).Some? {
      YieldsOne(p, c, o, Good(Hit(p, m, c).value));
    } else {
      StartedSound(p, m, c);
      PlainIsBody(p, fuel, c, [], Started(p, m, c));
    }
  }

  lemma {:induction false} PlainIsBody(p: Program, fuel: nat, c: Call, results: seq<Outcome>, m: Memo)
    requires Functional(p) && Sound(p, m) && Plain(p, fuel, c, results).Some?
    ensures Body(p, fuel, c, results, m).Some?
    ensures Body(p, fuel, c, results, m).value.0 == Plain(p, fuel, c, results).value
    decreases fuel, 0
  {
    match p.next(c, results)
    case Finish(_) =>
    case Invoke(d) =>
      PlainIsWrapped(p, fuel - 1, d, m);
      WrappedIsPlain(p, fuel - 1, d, m);
      var (o, after) := Wrapped(p, fuel - 1, d, m).value;
      PlainIsBody(p, fuel - 1, c, results + [o], after);
  }

  // ---------- a whole request ----------

  /** The calls a handler makes one after another on one store. */
  function Request(p: Program, fuel: nat, calls: seq<Call>, m: Memo): Option<(seq<Outcome>, Memo)>
    decreases calls
  {
    if calls == [] then Some(([], m))
    else
      match Wrapped(p, fuel, calls[0], m)
      case None => None
      case Some((o, after)) =>
        match Request(p, fuel, calls[1..], after)
        case None => None
        case Some((os, end)) => Some(([o] + os, end))
  }

  lemma {:induction false} RequestFinishes(p: Program, fuel: nat, calls: seq<Call>, m: Memo)
    requires Functional(p) && Sound(p, m)
    requires forall i :: 0 <= i < |calls| ==> Plain(p, fuel, calls[i], []).Some?
    ensures Request(p, fuel, calls, m).Some?
    decreases calls
  {
    if calls != [] {
      PlainIsWrapped(p, fuel, calls[0], m);
      WrappedIsPlain(p, fuel, calls[0], m);
      var rest := calls[1..];
      assert forall i :: 0 <= i < |rest| ==> rest[i] == calls[i + 1];
      RequestFinishes(p, fuel, rest, Wrapped(p, fuel, calls[0], m).value.1);
    }
  }

  ghost predicate AllYield(p: Program, calls: seq<Call>, os: seq<Outcome>) {
    |os| == |calls| && forall i :: 0 <= i < |calls| ==> Yields(p, calls[i], os[i])
  }

  lemma AllYieldCons(p: Program, calls: seq<Call>, o: Outcome, os: seq<Outcome>)
    requires calls != [] && Yields(p, calls[0], o) && AllYield(p, calls[1..], os)
    ensures AllYield(p, calls, [o] + os)
  {
    var all := [o] + os;
    forall i | 0 <= i < |calls| ensures Yields(p, calls[i], all[i]) {
      if i > 0 {
        assert calls[i] == calls[1..][i - 1] && all[i] == os[i - 1];
      }
    }
  }

  lemma {:induction false} RequestYields(p: Program, fuel: nat, calls: seq<Call>, m: Memo)
    requires Functional(p) && Sound(p, m) && Request(p, fuel, calls, m).Some?
    ensures AllYield(p, calls, Request(p, fuel, calls, m).value.0)
    decreases calls
  {
    if calls != [] {
      WrappedIsPlain(p, fuel, calls[0], m);
      var (o, after) := Wrapped(p, fuel, calls[0], m).value;
      RequestYields(p, fuel, calls[1..], after);
      AllYieldCons(p, calls, o, Request(p, fuel, calls[1..], after).value.0);
    }
  }

  /** Over any sequence of calls of a request, wrapped and plain results agree, finished call by finished call. */
  lemma RequestPreservesMeaning(p: Program, fuel: nat, calls: seq<Call>, m: Memo)
    requires Functional(p) && Sound(p, m)
    ensures (forall i :: 0 <= i < |calls| ==> Plain(p, fuel, calls[i], []).Some?) ==> Request(p, fuel, calls, m).Some?
    ensures Request(p, fuel, calls, m).Some? ==> AllYield(p, calls, Request(p, fuel, calls, m).value.0)
  {
    if forall i :: 0 <= i < |calls| ==> Plain(p, fuel, calls[i], []).Some? {
      RequestFinishes(p, fuel, calls, m);
    }
    if Request(p, fuel, calls, m).Some? {
      RequestYields(p, fuel, calls, m);
    }
  }

  /** The store a request starts with. */
  const FRESH := Memo(map[], [])

  lemma FreshSound(p: Program)
    ensures Sound(p, FRESH)
  {
  }

  /** The rewrite preserves meaning: in any request, memoized results are the plain ones, and memoizing loses none. */
  lemma RewritePreservesMeaning(p: Program, fuel: nat, calls: seq<Call>)
    requires Functional(p)
    ensures (forall i :: 0 <= i < |calls| ==> Plain(p, fuel, calls[i], []).Some?) ==> Request(p, fuel, calls, FRESH).Some?
    ensures Request(p, fuel, calls, FRESH).Some? ==> AllYield(p, calls, Request(p, fuel, calls, FRESH).value.0)
  {
    FreshSound(p);
    RequestPreservesMeaning(p, fuel, calls, FRESH);
  }

  // ---------- a body is not run again once its success is kept ----------

  /** No body runs under a key after a success was kept under it. */
  ghost predicate NoRerun(log: seq<Event>) {
    forall i, j :: 0 <= i < j < |log| && log[i].Kept? ==> log[j] != Ran(log[i].key)
  }

  lemma RanOnce(log: seq<Event>, k: Key)
    requires NoRerun(log) && Kept(k) !in log
    ensures NoRerun(log + [Ran(k)])
  {
    var all := log + [Ran(k)];
    forall i, j | 0 <= i < j < |all| && all[i].Kept? ensures all[j] != Ran(all[i].key) {
      assert all[i] == log[i] && log[i] in log;
      if j < |log| {
        assert all[j] == log[j];
      }
    }
  }

  lemma KeptOnce(log: seq<Event>, k: Key)
    requires NoRerun(log)
    ensures NoRerun(log + [Kept(k)])
  {
    var all := log + [Kept(k)];
    forall i, j | 0 <= i < j < |all| && all[i].Kept? ensures all[j] != Ran(all[i].key) {
      assert all[i] == log[i];
      if j < |log| {
        assert all[j] == log[j];
      }
    }
  }

  /** Whatever was kept is still stored, at a type that each of these calls would look for. */
  ghost predicate Hittable(p: Program, m: Memo, among: Call -> bool) {
    && (forall e <- m.log :: e.Kept? ==> e.key in m.entries)
    && (forall c: Call :: among(c) && KeyOf(p, c) in m.entries ==> m.entries[KeyOf(p, c)].0 == p.okType(c.fn))
  }

  ghost predicate RunsOnce(p: Program, m: Memo, among: Call -> bool) { NoRerun(m.log) && Hittable(p, m, among) }

  lemma StartedOnce(p: Program, m: Memo, c: Call, among: Call -> bool)
    requires RunsOnce(p, m, among) && among(c) && Hit(p, m, c).None?
    ensures RunsOnce(p, Started(p, m, c), among)
  {
    RanOnce(m.log, KeyOf(p, c));
  }

  lemma KeepOnce(p: Program, m: Memo, c: Call, o: Outcome, among: Call -> bool)
    requires RunsOnce(p, m, among)
    requires o.Good? ==> forall d: Call :: among(d) && KeyOf(p, d) == KeyOf(p, c) ==> p.okType(d.fn) == p.okType(c.fn)
    ensures RunsOnce(p, Keep(p, m, c, o), among)
  {
    KeptOnce(m.log, KeyOf(p, c));
  }

  // ---------- exactly when ----------

  ghost predicate Finishes(p: Program, c: Call) { exists o :: Yields(p, c, o) }

  ghost predicate Succeeds(p: Program, c: Call) { exists v :: Yields(p, c, Good(v)) }

  /** Two calls that finish, under one key but at different types, the first with a success. */
  ghost predicate Clash(p: Program, a: Call, b: Call) {
    SameKey(p, a, b) && p.okType(a.fn) != p.okType(b.fn) && Succeeds(p, a) && Finishes(p, b)
  }

  ghost predicate NoClash(p: Program) { forall a: Call, b: Call :: !Clash(p, a, b) }

  ghost function Finishing(p: Program): Call -> bool { (c: Call) => Finishes(p, c) }

  lemma {:induction false} WrappedApart(p: Program, fuel: nat, c: Call, m: Memo)
    requires Functional(p) && NoClash(p) && Sound(p, m) && RunsOnce(p, m, Finishing(p)) && Wrapped(p, fuel, c, m).Some?
    ensures RunsOnce(p, Wrapped(p, fuel, c, m).value.1, Finishing(p))
    decreases fuel, 1
  {
    WrappedIsPlain(p, fuel, c, m);
    if Hit(p, m, c).None? {
      StartedOnce(p, m, c, Finishing(p));
      StartedSound(p, m, c);
      BodyApart(p, fuel, c, [], Started(p, m, c));
      var (o, after) := Body(p, fuel, c, [], Started(p, m, c)).value;
      if o.Good? {
        assert Yields(p, c, Good(o.value));
        forall d: Call | Finishing(p)(d) && KeyOf(p, d) == KeyOf(p, c) ensures p.okType(d.fn) == p.okType(c.fn) {
          KeyIsItsFields(p, c, d);
          assert !Clash(p, c, d);
        }
      }
      KeepOnce(p, after, c, o, Finishing(p));
    }
  }

  lemma {:induction false} BodyApart(p: Program, fuel: nat, c: Call, results: seq<Outcome>, m: Memo)
    requires Functional(p) && NoClash(p) && Sound(p, m) && RunsOnce(p, m, Finishing(p))
    requires Body(p, fuel, c, results, m).Some?
    ensures RunsOnce(p, Body(p, fuel, c, results, m).value.1, Finishing(p))
    decreases fuel, 0
  {
    match p.next(c, results)
    case Finish(_) =>
    case Invoke(d) =>
      WrappedApart(p, fuel - 1, d, m);
      WrappedIsPlain(p, fuel - 1, d, m);
      var (o, after) := Wrapped(p, fuel - 1, d, m).value;
      BodyApart(p, fuel - 1, c, results + [o], after);
  }

  lemma {:induction false} RequestApart(p: Program, fuel: nat, calls: seq<Call>, m: Memo)
    requires Functional(p) && NoClash(p) && Sound(p, m) && RunsOnce(p, m, Finishing(p)) && Request(p, fuel, calls, m).Some?
    ensures RunsOnce(p, Request(p, fuel, calls, m).value.1, Finishing(p))
    decreases calls
  {
    if calls != [] {
      WrappedApart(p, fuel, calls[0], m);
      WrappedIsPlain(p, fuel, calls[0], m);
      RequestApart(p, fuel, calls[1..], Wrapped(p, fuel, calls[0], m).value.1);
    }
  }

  lemma {:induction false} WrappedLogGrows(p: Program, fuel: nat, c: Call, m: Memo)
    requires Wrapped(p, fuel, c, m).Some?
    ensures m.log <= Wrapped(p, fuel, c, m).value.1.log
    ensures Hit(p, m, c).None? ==> Started(p, m, c).log <= Wrapped(p, fuel, c, m).value.1.log
    decreases fuel, 1
  {
    if Hit(p, m, c).None? {
      BodyLogGrows(p, fuel, c, [], Started(p, m, c));
    }
  }

  lemma {:induction false} BodyLogGrows(p: Program, fuel: nat, c: Call, results: seq<Outcome>, m: Memo)
    requires Body(p, fuel, c, results, m).Some?
    ensures m.log <= Body(p, fuel, c, results, m).value.1.log
    decreases fuel, 0
  {
    match p.next(c, results)
    case Finish(_) =>
    case Invoke(d) =>
      WrappedLogGrows(p, fuel - 1, d, m);
      var (o, after) := Wrapped(p, fuel - 1, d, m).value;
      BodyLogGrows(p, fuel - 1, c, results + [o], after);
  }

  /**
   * Two calls that clash, made one after the other in a fresh request: the second runs under a key already
   * kept, and if it succeeds too it evicts the first, whose body the next such call runs again.
   */
  lemma ClashRunsAgain(p: Program, a: Call, b: Call) returns (fuel: nat)
    requires Functional(p) && Clash(p, a, b)
    ensures var r := Request(p, fuel, [a, b], FRESH);
      r.Some? && !NoRerun(r.value.1.log) && (Succeeds(p, b) ==> Hit(p, r.value.1, a).None?)
  {
    KeyIsItsFields(p, a, b);
    var v: nat :| Yields(p, a, Good(v));
    var o: Outcome :| Yields(p, b, o);
    var f: nat :| Plain(p, f, a, []) == Some(Good(v));
    var g: nat :| Plain(p, g, b, []) == Some(o);
    fuel := if f < g then g else f;
    PlainMonotone(p, f, fuel, a, []);
    PlainMonotone(p, g, fuel, b, []);
    FreshSound(p);
    PlainIsWrapped(p, fuel, a, FRESH);
    WrappedIsPlain(p, fuel, a, FRESH);
    var k, m := KeyOf(p, a), Wrapped(p, fuel, a, FRESH).value.1;
    assert m.log[|m.log| - 1] == Kept(k) && m.entries[k].0 == p.okType(a.fn);
    PlainIsWrapped(p, fuel, b, m);
    WrappedLogGrows(p, fuel, b, m);
    var log := Wrapped(p, fuel, b, m).value.1.log;
    assert Started(p, m, b).log[|m.log|] == Ran(k);
    assert log[|m.log| - 1] == Kept(k) && log[|m.log|] == Ran(k);
    if w :| Yields(p, b, Good(w)) {
      YieldsOne(p, b, o, Good(w));
    }
    assert [a, b][1..] == [b] && [b][1..] == [];
    assert Request(p, fuel, [b], m).Some? && Request(p, fuel, [b], m).value.1 == Wrapped(p, fuel, b, m).value.1;
  }

  ghost predicate NeverReruns(p: Program, fuel: nat, calls: seq<Call>) {
    Request(p, fuel, calls, FRESH).Some? ==> NoRerun(Request(p, fuel, calls, FRESH).value.1.log)
  }

  /**
   * "No body runs again once a success was kept under its key" holds of a program exactly when no two of
   * its calls clash: if none do, no finished request does so, and if two do, making them one after the
   * other does. Before a success is kept a body may run more than once (`ErringRunsEachTime`,
   * `OwnKeyRunsTwice`).
   */
  lemma RunsOnceExactly(p: Program)
    requires Functional(p)
    ensures (forall fuel: nat, calls: seq<Call> :: NeverReruns(p, fuel, calls)) <==> NoClash(p)
  {
    if NoClash(p) {
      forall fuel: nat, calls: seq<Call> ensures NeverReruns(p, fuel, calls) {
        if Request(p, fuel, calls, FRESH).Some? {
          FreshSound(p);
          RequestApart(p, fuel, calls, FRESH);
        }
      }
    } else {
      var a: Call, b: Call :| Clash(p, a, b);
      var fuel := ClashRunsAgain(p, a, b);
      assert !NeverReruns(p, fuel, [a, b]);
    }
  }

  /** Two bodies ran under one key. */
  ghost predicate RunsTwice(log: seq<Event>, k: Key) {
    exists i, j :: 0 <= i < j < |log| && log[i] == Ran(k) && log[j] == Ran(k)
  }

  /** An error is not kept, so a call that ends in one runs its body each time it is made. */
  lemma ErringRunsEachTime(p: Program, c: Call, error: nat) returns (fuel: nat)
    requires Functional(p) && Yields(p, c, Bad(error))
    ensures var r := Request(p, fuel, [c, c], FRESH); r.Some? && RunsTwice(r.value.1.log, KeyOf(p, c))
  {
    fuel :| Plain(p, fuel, c, []) == Some(Bad(error));
    FreshSound(p);
    PlainIsWrapped(p, fuel, c, FRESH);
    WrappedIsPlain(p, fuel, c, FRESH);
    WrappedLogGrows(p, fuel, c, FRESH);
    var k, m := KeyOf(p, c), Wrapped(p, fuel, c, FRESH).value.1;
    if Hit(p, m, c).Some? {
      YieldsOne(p, c, Bad(error), Good(Hit(p, m, c).value));
    }
    PlainIsWrapped(p, fuel, c, m);
    WrappedLogGrows(p, fuel, c, m);
    var log := Wrapped(p, fuel, c, m).value.1.log;
    assert Started(p, FRESH, c).log[0] == Ran(k) && m.log[0] == Ran(k);
    assert Started(p, m, c).log[|m.log|] == Ran(k);
    assert log[0] == Ran(k) && log[|m.log|] == Ran(k);
    assert [c, c][1..] == [c] && [c][1..] == [];
    assert Request(p, fuel, [c], m).Some? && Request(p, fuel, [c], m).value.1.log == log;
  }

  /** A body that makes a call under its own key first runs the body of that call too. */
  lemma OwnKeyRunsTwice(p: Program, c: Call, d: Call) returns (fuel: nat)
    requires Functional(p) && Finishes(p, c) && p.next(c, []) == Invoke(d) && SameKey(p, c, d)
    ensures var r := Request(p, fuel, [c], FRESH); r.Some? && RunsTwice(r.value.1.log, KeyOf(p, c))
  {
    KeyIsItsFields(p, c, d);
    var o: Outcome :| Yields(p, c, o);
    fuel :| Plain(p, fuel, c, []) == Some(o);
    FreshSound(p);
    PlainIsWrapped(p, fuel, c, FRESH);
    var k, m := KeyOf(p, c), Started(p, FRESH, c);
    WrappedLogGrows(p, fuel - 1, d, m);
    var (inner, after) := Wrapped(p, fuel - 1, d, m).value;
    BodyLogGrows(p, fuel - 1, c, [] + [inner], after);
    assert Started(p, m, d).log == [Ran(k), Ran(k)];
    var log := Wrapped(p, fuel, c, FRESH).value.1.log;
    assert log[0] == Ran(k) && log[1] == Ran(k);
    assert [c][1..] == [];
  }

  // ---------- a rule that can be checked on the declarations ----------

  /** Calls that share a key have one value type: no two resolvers of different types share a name and fields. */
  ghost predicate OneType(p: Program) {
    forall c: Call, d: Call :: SameKey(p, c, d) ==> p.okType(c.fn) == p.okType(d.fn)
  }

  function AllCalls(): Call -> bool { (_: Call) => true }

  lemma {:induction false} WrappedOnce(p: Program, fuel: nat, c: Call, m: Memo)
    requires OneType(p) && RunsOnce(p, m, AllCalls()) && Wrapped(p, fuel, c, m).Some?
    ensures RunsOnce(p, Wrapped(p, fuel, c, m).value.1, AllCalls())
    decreases fuel, 1
  {
    if Hit(p, m, c).None? {
      StartedOnce(p, m, c, AllCalls());
      BodyOnce(p, fuel, c, [], Started(p, m, c));
      var (o, after) := Body(p, fuel, c, [], Started(p, m, c)).value;
      forall d: Call | KeyOf(p, d) == KeyOf(p, c) ensures p.okType(d.fn) == p.okType(c.fn) {
        KeyIsItsFields(p, c, d);
      }
      KeepOnce(p, after, c, o, AllCalls());
    }
  }

  lemma {:induction false} BodyOnce(p: Program, fuel: nat, c: Call, results: seq<Outcome>, m: Memo)
    requires OneType(p) && RunsOnce(p, m, AllCalls()) && Body(p, fuel, c, results, m).Some?
    ensures RunsOnce(p, Body(p, fuel, c, results, m).value.1, AllCalls())
    decreases fuel, 0
  {
    match p.next(c, results)
    case Finish(_) =>
    case Invoke(d) =>
      WrappedOnce(p, fuel - 1, d, m);
      var (o, after) := Wrapped(p, fuel - 1, d, m).value;
      BodyOnce(p, fuel - 1, c, results + [o], after);
  }

  lemma {:induction false} RequestOnce(p: Program, fuel: nat, calls: seq<Call>, m: Memo)
    requires OneType(p) && RunsOnce(p, m, AllCalls()) && Request(p, fuel, calls, m).Some?
    ensures RunsOnce(p, Request(p, fuel, calls, m).value.1, AllCalls())
    decreases calls
  {
    if calls != [] {
      WrappedOnce(p, fuel, calls[0], m);
      RequestOnce(p, fuel, calls[1..], Wrapped(p, fuel, calls[0], m).value.1);
    }
  }

  /** With one type per key no request reruns, even if outcomes depend on more than the key; and no two calls clash. */
  lemma RequestRunsOnce(p: Program, fuel: nat, calls: seq<Call>)
    requires OneType(p)
    ensures NeverReruns(p, fuel, calls) && NoClash(p)
  {
    if Request(p, fuel, calls, FRESH).Some? {
      RequestOnce(p, fuel, calls, FRESH);
    }
  }
}
