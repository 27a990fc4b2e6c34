/** The Vite manifest walk of `src/assets.rs`: which stylesheets an entry needs, and in which order. */
module Assets {
  import opened Wrappers

  /** One entry of `manifest.json`: the emitted file, its stylesheets, the keys it imports. */
  datatype Chunk = Chunk(file: string, css: seq<string>, imports: seq<string>)

  type Manifest = map<string, Chunk>

  datatype Resolver = Dev | FromManifest(chunks: Manifest)

  datatype EntryAssets = EntryAssets(js: string, css: seq<string>)

  function TrimStartSlashes(s: string): string {
    if s != [] && s[0] == '/' then TrimStartSlashes(s[1..]) else s
  }

  function Url(prefix: string, file: string): string {
    prefix + "/" + TrimStartSlashes(file)
  }

  /** The first `n` characters are slashes. */
  ghost predicate Slashes(s: string, n: nat) { n <= |s| && forall i :: 0 <= i < n ==> s[i] == '/' }

  /** `t` is `s` without the slashes in front. */
  ghost predicate TrimsTo(s: string, t: string) {
    (exists n: nat :: Slashes(s, n) && t == s[n..]) && (t != [] ==> t[0] != '/')
  }

  lemma {:induction false} TrimStartIs(s: string)
    ensures var t := TrimStartSlashes(s);
      |t| <= |s| && t == s[|s| - |t|..] && Slashes(s, |s| - |t|) && (t != [] ==> t[0] != '/')
  {
    if s != [] && s[0] == '/' {
      var rest := s[1..];
      TrimStartIs(rest);
      assert forall i :: 1 <= i < |s| ==> s[i] == rest[i - 1];
    }
  }

  lemma TrimStartTrims(s: string)
    ensures TrimsTo(s, TrimStartSlashes(s))
  {
    TrimStartIs(s);
  }

  lemma TrimsToOne(s: string, t: string, u: string)
    requires TrimsTo(s, t) && TrimsTo(s, u)
    ensures t != [] ==> t == u
  {
    var m: nat :| Slashes(s, m) && t == s[m..];
    var n: nat :| Slashes(s, n) && u == s[n..];
    if t != [] {
      assert t[0] == s[m] && n <= m;
      assert u != [] && u[0] == s[n];
    }
  }

  /** The URL of a file: the prefix, one slash, and the file without slashes in front. */
  ghost predicate IsUrl(prefix: string, file: string, url: string) {
    exists t :: TrimsTo(file, t) && url == prefix + "/" + t
  }

  /** `url` puts exactly one slash between prefix and file, however many the file starts with. */
  lemma UrlExactly(prefix: string, file: string, url: string)
    ensures Url(prefix, file) == url <==> IsUrl(prefix, file, url)
    ensures file == [] || file[0] != '/' ==> Url(prefix, file) == prefix + "/" + file
    ensures Url(prefix, "/" + file) == Url(prefix, file)
  {
    TrimStartTrims(file);
    if t :| TrimsTo(file, t) && url == prefix + "/" + t {
      TrimsToOne(file, t, TrimStartSlashes(file));
      TrimsToOne(file, TrimStartSlashes(file), t);
    }
    assert ("/" + file)[1..] == file;
  }

  // ---------- the recursive reference: a preorder depth-first walk, last import first ----------

  /** What a walk leaves behind: every name it has met, and the present keys in visiting order. */
  datatype Walk = Walk(seen: set<string>, order: seq<string>)

  /** Visit one name: itself, then its imports from the last to the first. */
  function Dfs(m: Manifest, key: string, seen: set<string>): (w: Walk)
    ensures seen <= w.seen
    decreases m.Keys - seen, 1, 0
  {
    if key in seen then Walk(seen, [])
    else if key !in m then Walk(seen + {key}, [])
    else
      var below := DfsAll(m, m[key].imports, seen + {key});
      Walk(below.seen, [key] + below.order)
  }

  /** Visit a list of names from the last to the first. */
  function DfsAll(m: Manifest, keys: seq<string>, seen: set<string>): (w: Walk)
    ensures seen <= w.seen
    decreases m.Keys - seen, 2, |keys|
  {
    if keys == [] then Walk(seen, [])
    else
      var last := Dfs(m, keys[|keys| - 1], seen);
      assert m.Keys - last.seen <= m.Keys - seen;
      var rest := DfsAll(m, keys[..|keys| - 1], last.seen);
      Walk(rest.seen, last.order + rest.order)
  }

  /** The order in which the present chunks reachable from `entry` are visited. */
  function Preorder(m: Manifest, entry: string): seq<string> {
    Dfs(m, entry, {}).order
  }

  // ---------- stylesheet URLs along a visiting order ----------

  function Urls(prefix: string, css: seq<string>): (r: seq<string>)
    ensures |r| == |css|
  {
    seq(|css|, i requires 0 <= i < |css| => Url(prefix, css[i]))
  }

  function UrlsAlong(prefix: string, m: Manifest, order: seq<string>): seq<string>
    requires forall k <- order :: k in m
  {
    if order == [] then []
    else UrlsAlong(prefix, m, order[..|order| - 1]) + Urls(prefix, m[order[|order| - 1]].css)
  }

  /** The first occurrence of every element, in order of first occurrence. */
  function Distinct(s: seq<string>): (r: seq<string>)
    ensures forall x :: x in r <==> x in s
    ensures forall i, j :: 0 <= i < j < |r| ==> r[i] != r[j]
  {
    if s == [] then []
    else
      var front := Distinct(s[..|s| - 1]);
      var x := s[|s| - 1];
      assert s == s[..|s| - 1] + [x];
      if x in front then front else front + [x]
  }

  lemma {:induction false} DistinctConcat(a: seq<string>, b: seq<string>)
    ensures Distinct(a) <= Distinct(a + b)
  {
    if b == [] {
      assert a + b == a;
    } else {
      DistinctConcat(a, b[..|b| - 1]);
      assert (a + b)[..|a + b| - 1] == a + b[..|b| - 1];
    }
  }

  lemma {:induction false} DistinctSnoc(s: seq<string>, x: string)
    ensures Distinct(s + [x]) == if x in Distinct(s) then Distinct(s) else Distinct(s) + [x]
  {
    assert (s + [x])[..|s|] == s;
  }

  lemma UrlsAlongSnoc(prefix: string, m: Manifest, order: seq<string>, key: string)
    requires key in m && forall k <- order :: k in m
    ensures UrlsAlong(prefix, m, order + [key]) == UrlsAlong(prefix, m, order) + Urls(prefix, m[key].css)
  {
    assert (order + [key])[..|order|] == order;
  }

  // ---------- the explicit-stack walk of the source ----------

  /** Pushing onto the stack is visiting afterwards: the upper part goes first. */
  lemma {:induction false} DfsAllConcat(m: Manifest, a: seq<string>, b: seq<string>, seen: set<string>)
    ensures var wb := DfsAll(m, b, seen); var wa := DfsAll(m, a, wb.seen);
            DfsAll(m, a + b, seen) == Walk(wa.seen, wb.order + wa.order)
    decreases |b|
  {
    if b == [] {
      assert a + b == a;
    } else {
      var n := |b| - 1;
      assert (a + b)[..|a + b| - 1] == a + b[..n];
      var last := Dfs(m, b[n], seen);
      DfsAllConcat(m, a, b[..n], last.seen);
    }
  }

  lemma {:induction false} DfsPresent(m: Manifest, key: string, seen: set<string>)
    ensures forall k <- Dfs(m, key, seen).order :: k in m
    decreases m.Keys - seen, 1, 0
  {
    if key !in seen && key in m {
      DfsAllPresent(m, m[key].imports, seen + {key});
    }
  }

  lemma {:induction false} DfsAllPresent(m: Manifest, keys: seq<string>, seen: set<string>)
    ensures forall k <- DfsAll(m, keys, seen).order :: k in m
    decreases m.Keys - seen, 2, |keys|
  {
    if keys != [] {
      var last := Dfs(m, keys[|keys| - 1], seen);
      assert m.Keys - last.seen <= m.Keys - seen;
      DfsPresent(m, keys[|keys| - 1], seen);
      DfsAllPresent(m, keys[..|keys| - 1], last.seen);
    }
  }

  /** The stylesheets of an entry: the URLs along the preorder walk, first occurrences only. */
  function CssOf(prefix: string, m: Manifest, entry: string): seq<string> {
    DfsPresent(m, entry, {});
    Distinct(UrlsAlong(prefix, m, Preorder(m, entry)))
  }

  lemma UrlsPrefix(prefix: string, css: seq<string>, i: nat, before: seq<string>)
    requires i < |css|
    ensures before + Urls(prefix, css)[..i + 1] == (before + Urls(prefix, css)[..i]) + [Url(prefix, css[i])]
  {
    var urls := Urls(prefix, css);
    assert urls[..i + 1] == urls[..i] + [urls[i]];
  }

  /** Append the stylesheets of one chunk, skipping those already listed. */
  method AppendCss(prefix: string, css: seq<string>, out: seq<string>, ghost before: seq<string>)
    returns (out': seq<string>)
    requires out == Distinct(before)
    ensures out' == Distinct(before + Urls(prefix, css))
  {
    out' := out;
    ghost var urls := Urls(prefix, css);
    ghost var listed := before;
    for i := 0 to |css|
      invariant listed == before + urls[..i]
      invariant out' == Distinct(listed)
    {
      var url := Url(prefix, css[i]);
      DistinctSnoc(listed, url);
      UrlsPrefix(prefix, css, i, before);
      listed := listed + [url];
      if url !in out' {
        out' := out' + [url];
      }
    }
    assert urls[..|css|] == urls;
  }

  lemma DfsSingle(m: Manifest, entry: string)
    ensures DfsAll(m, [entry], {}).order == Preorder(m, entry)
  {
    var w := Dfs(m, entry, {});
    assert [entry][..0] == [];
    assert DfsAll(m, [], w.seen) == Walk(w.seen, []);
  }

  /** One turn of the source's loop: what popping the top of the stack leaves to visit. */
  lemma PopTop(m: Manifest, stack: seq<string>, seen: set<string>)
    requires stack != []
    ensures var key, rest := stack[|stack| - 1], stack[..|stack| - 1];
            DfsAll(m, stack, seen).order ==
              if key in seen then DfsAll(m, rest, seen).order
              else if key !in m then DfsAll(m, rest, seen + {key}).order
              else [key] + DfsAll(m, rest + m[key].imports, seen + {key}).order
  {
    var key, rest := stack[|stack| - 1], stack[..|stack| - 1];
    if key !in seen && key in m {
      DfsAllConcat(m, rest, m[key].imports, seen + {key});
    }
  }

  /** The keys visited so far, and those the stack still leads to, make up the whole walk. */
  ghost predicate OnCourse(m: Manifest, total: seq<string>, order: seq<string>, stack: seq<string>, seen: set<string>) {
    && (forall k <- order :: k in m)
    && total == order + DfsAll(m, stack, seen).order
  }

  lemma CourseKept(m: Manifest, total: seq<string>, order: seq<string>, stack: seq<string>, seen: set<string>)
    requires stack != [] && OnCourse(m, total, order, stack, seen)
    ensures var key, rest := stack[|stack| - 1], stack[..|stack| - 1];
      && (key in seen ==> OnCourse(m, total, order, rest, seen))
      && (key !in seen && key !in m ==> OnCourse(m, total, order, rest, seen + {key}))
      && (key !in seen && key in m ==> OnCourse(m, total, order + [key], rest + m[key].imports, seen + {key}))
  {
    PopTop(m, stack, seen);
    var key, rest := stack[|stack| - 1], stack[..|stack| - 1];
    if key !in seen && key in m {
      var left := DfsAll(m, rest + m[key].imports, seen + {key}).order;
      assert order + ([key] + left) == (order + [key]) + left;
    }
  }

  /** `collect_css`: terminates on every manifest and computes the recursive reference. */
  method CollectCss(prefix: string, m: Manifest, entry: string) returns (out: seq<string>)
    ensures out == CssOf(prefix, m, entry)
  {
    out := [];
    var seen: set<string> := {};
    var queue := [entry];
    ghost var order: seq<string> := [];
    ghost var total := Preorder(m, entry);
    DfsSingle(m, entry);
    assert OnCourse(m, total, order, queue, seen);
    while queue != []
      invariant OnCourse(m, total, order, queue, seen)
      invariant out == Distinct(UrlsAlong(prefix, m, order))
      decreases m.Keys - seen, |queue|
    {
      CourseKept(m, total, order, queue, seen);
      var key := queue[|queue| - 1];
      queue := queue[..|queue| - 1];
      if key !in seen {
        ghost var before := seen;
        seen := seen + {key};
        if key in m {
          UrlsAlongSnoc(prefix, m, order, key);
          out := AppendCss(prefix, m[key].css, out, UrlsAlong(prefix, m, order));
          order := order + [key];
          queue := queue + m[key].imports;
          assert key in m.Keys - before && key !in m.Keys - seen;
        } else {
          assert m.Keys - seen == m.Keys - before;
        }
      }
    }
    assert order == total;
  }

  // ---------- what the walk reaches ----------

  /** A chain of imports through present chunks. */
  ghost predicate ImportPath(m: Manifest, p: seq<string>) {
    && p != []
    && (forall i :: 0 <= i < |p| ==> p[i] in m)
    && (forall i :: 0 <= i < |p| - 1 ==> p[i + 1] in m[p[i]].imports)
  }

  ghost predicate Reaches(m: Manifest, source: string, key: string) {
    exists p :: ImportPath(m, p) && p[0] == source && p[|p| - 1] == key
  }

  lemma ReachesStep(m: Manifest, source: string, via: string, key: string)
    requires source in m && via in m[source].imports && Reaches(m, via, key)
    ensures Reaches(m, source, key)
  {
    var p :| ImportPath(m, p) && p[0] == via && p[|p| - 1] == key;
    var q := [source] + p;
    assert forall i :: 0 < i < |q| ==> q[i] == p[i - 1];
    assert forall i {:trigger q[i]} :: 0 <= i < |q| - 1 ==> q[i + 1] == p[i];
    assert ImportPath(m, q) && q[0] == source && q[|q| - 1] == key;
  }

  /** Only reachable chunks are visited. */
  lemma {:induction false} DfsSound(m: Manifest, key: string, seen: set<string>)
    ensures forall k <- Dfs(m, key, seen).order :: Reaches(m, key, k)
    decreases m.Keys - seen, 1, 0
  {
    if key !in seen && key in m {
      var imports := m[key].imports;
      DfsAllSound(m, imports, seen + {key});
      var below := DfsAll(m, imports, seen + {key}).order;
      forall k | k in below ensures Reaches(m, key, k) {
        var v :| v in imports && Reaches(m, v, k);
        ReachesStep(m, key, v, k);
      }
      assert ImportPath(m, [key]) && [key][0] == key;
    }
  }

  lemma {:induction false} DfsAllSound(m: Manifest, keys: seq<string>, seen: set<string>)
    ensures forall k <- DfsAll(m, keys, seen).order :: exists v :: v in keys && Reaches(m, v, k)
    decreases m.Keys - seen, 2, |keys|
  {
    if keys != [] {
      var n := |keys| - 1;
      var last := Dfs(m, keys[n], seen);
      assert m.Keys - last.seen <= m.Keys - seen;
      DfsSound(m, keys[n], seen);
      DfsAllSound(m, keys[..n], last.seen);
      assert DfsAll(m, keys, seen).order == last.order + DfsAll(m, keys[..n], last.seen).order;
      forall k | k in DfsAll(m, keys, seen).order ensures exists v :: v in keys && Reaches(m, v, k) {
        if k in last.order {
          assert keys[n] in keys && Reaches(m, keys[n], k);
        } else {
          var v :| v in keys[..n] && Reaches(m, v, k);
          assert v in keys;
        }
      }
    }
  }

  /** A finished walk: it lists each newly seen present key once, and has followed its imports. */
  ghost predicate Finished(m: Manifest, seen: set<string>, w: Walk) {
    && (forall k :: k in w.order <==> k in m && k in w.seen && k !in seen)
    && (forall i, j :: 0 <= i < j < |w.order| ==> w.order[i] != w.order[j])
    && (forall k, v :: k in w.order && v in m[k].imports ==> v in w.seen)
  }

  lemma {:induction false} DfsFinished(m: Manifest, key: string, seen: set<string>)
    ensures Finished(m, seen, Dfs(m, key, seen))
    ensures key in Dfs(m, key, seen).seen
    decreases m.Keys - seen, 1, 0
  {
    if key !in seen && key in m {
      DfsAllFinished(m, m[key].imports, seen + {key});
    }
  }

  lemma {:induction false} DfsAllFinished(m: Manifest, keys: seq<string>, seen: set<string>)
    ensures Finished(m, seen, DfsAll(m, keys, seen))
    ensures forall k <- keys :: k in DfsAll(m, keys, seen).seen
    decreases m.Keys - seen, 2, |keys|
  {
    if keys != [] {
      var last := Dfs(m, keys[|keys| - 1], seen);
      assert m.Keys - last.seen <= m.Keys - seen;
      DfsFinished(m, keys[|keys| - 1], seen);
      DfsAllFinished(m, keys[..|keys| - 1], last.seen);
      var rest := DfsAll(m, keys[..|keys| - 1], last.seen);
      var all := last.order + rest.order;
      assert keys == keys[..|keys| - 1] + [keys[|keys| - 1]];
      assert forall k :: k in last.order ==> k !in rest.order;
      assert forall i, j :: 0 <= i < j < |all| ==> all[i] != all[j] by {
        assert forall i :: 0 <= i < |last.order| ==> all[i] == last.order[i] && all[i] in last.order;
        assert forall i :: |last.order| <= i < |all| ==> all[i] == rest.order[i - |last.order|] && all[i] in rest.order;
      }
    }
  }

  lemma PathTail(m: Manifest, p: seq<string>)
    requires ImportPath(m, p) && |p| > 1
    ensures ImportPath(m, p[1..]) && p[1..][0] in m[p[0]].imports && p[1..][|p| - 2] == p[|p| - 1]
  {
    var q := p[1..];
    assert forall i :: 0 <= i < |q| ==> q[i] == p[i + 1];
    forall i | 0 <= i < |q| - 1 ensures q[i + 1] in m[q[i]].imports {
      assert p[i + 2] in m[p[i + 1]].imports by { var j := i + 1; assert p[j + 1] in m[p[j]].imports; }
    }
  }

  /** Along any import path from a visited key, everything is visited. */
  lemma {:induction false} PathVisited(m: Manifest, w: Walk, p: seq<string>)
    requires Finished(m, {}, w) && ImportPath(m, p) && p[0] in w.seen
    ensures p[|p| - 1] in w.order
    decreases |p|
  {
    assert p[0] in w.order;
    if |p| > 1 {
      PathTail(m, p);
      PathVisited(m, w, p[1..]);
    }
  }

  /** The walk visits each chunk reachable through present keys exactly once, and nothing else. */
  lemma PreorderIsReachability(m: Manifest, entry: string)
    ensures forall k :: k in Preorder(m, entry) <==> Reaches(m, entry, k)
    ensures forall i, j :: 0 <= i < j < |Preorder(m, entry)| ==> Preorder(m, entry)[i] != Preorder(m, entry)[j]
  {
    var w := Dfs(m, entry, {});
    DfsSound(m, entry, {});
    DfsFinished(m, entry, {});
    forall k | Reaches(m, entry, k) ensures k in w.order {
      var p :| ImportPath(m, p) && p[0] == entry && p[|p| - 1] == k;
      PathVisited(m, w, p);
    }
  }

  lemma UrlIn(prefix: string, css: seq<string>, c: string)
    requires c in css
    ensures Url(prefix, c) in Urls(prefix, css)
  {
    var i :| 0 <= i < |css| && css[i] == c;
    assert Urls(prefix, css)[i] == Url(prefix, c);
  }

  lemma {:induction false} UrlsAlongMembers(prefix: string, m: Manifest, order: seq<string>)
    requires forall k <- order :: k in m
    ensures forall u :: u in UrlsAlong(prefix, m, order) <==>
              exists k, c :: k in order && c in m[k].css && u == Url(prefix, c)
  {
    if order != [] {
      var n := |order| - 1;
      var css := m[order[n]].css;
      UrlsAlongMembers(prefix, m, order[..n]);
      forall u ensures u in UrlsAlong(prefix, m, order) <==>
              exists k, c :: k in order && c in m[k].css && u == Url(prefix, c)
      {
        if u in Urls(prefix, css) {
          var i :| 0 <= i < |css| && Urls(prefix, css)[i] == u;
          assert order[n] in order && css[i] in m[order[n]].css && u == Url(prefix, css[i]);
        } else if u in UrlsAlong(prefix, m, order[..n]) {
          var k, c :| k in order[..n] && c in m[k].css && u == Url(prefix, c);
          assert k in order;
        } else if exists k, c :: k in order && c in m[k].css && u == Url(prefix, c) {
          var k, c :| k in order && c in m[k].css && u == Url(prefix, c);
          assert order == order[..n] + [order[n]];
          assert k !in order[..n];
          UrlIn(prefix, css, c);
        }
      }
    }
  }

  lemma CssMembers(prefix: string, m: Manifest, entry: string)
    ensures forall u :: u in CssOf(prefix, m, entry) <==>
              exists k, c :: Reaches(m, entry, k) && k in m && c in m[k].css && u == Url(prefix, c)
  {
    DfsPresent(m, entry, {});
    PreorderIsReachability(m, entry);
    UrlsAlongMembers(prefix, m, Preorder(m, entry));
  }

  /** A chunk the entry reaches lists a stylesheet with this URL. */
  ghost predicate Wanted(prefix: string, m: Manifest, entry: string, u: string) {
    exists k, c :: Reaches(m, entry, k) && k in m && c in m[k].css && IsUrl(prefix, c, u)
  }

  /** The stylesheet list repeats nothing and names exactly the stylesheets of reachable chunks. */
  lemma CssIsReachableCss(prefix: string, m: Manifest, entry: string)
    ensures forall i, j :: 0 <= i < j < |CssOf(prefix, m, entry)| ==>
              CssOf(prefix, m, entry)[i] != CssOf(prefix, m, entry)[j]
    ensures forall u :: u in CssOf(prefix, m, entry) <==> Wanted(prefix, m, entry, u)
  {
    CssMembers(prefix, m, entry);
    forall u ensures u in CssOf(prefix, m, entry) <==> Wanted(prefix, m, entry, u) {
      if u in CssOf(prefix, m, entry) {
        var k, c :| Reaches(m, entry, k) && k in m && c in m[k].css && u == Url(prefix, c);
        UrlExactly(prefix, c, u);
      }
      if Wanted(prefix, m, entry, u) {
        var k, c :| Reaches(m, entry, k) && k in m && c in m[k].css && IsUrl(prefix, c, u);
        UrlExactly(prefix, c, u);
      }
    }
  }

  lemma {:induction false} UrlsAlongHead(prefix: string, m: Manifest, order: seq<string>)
    requires order != [] && forall k <- order :: k in m
    ensures Urls(prefix, m[order[0]].css) <= UrlsAlong(prefix, m, order)
  {
    if |order| > 1 {
      UrlsAlongHead(prefix, m, order[..|order| - 1]);
    }
  }

  /** The entry's own stylesheets always lead the list. */
  lemma EntryCssLeads(prefix: string, m: Manifest, entry: string)
    requires entry in m
    ensures Distinct(Urls(prefix, m[entry].css)) <= CssOf(prefix, m, entry)
  {
    DfsPresent(m, entry, {});
    var order := Preorder(m, entry);
    assert order[0] == entry;
    UrlsAlongHead(prefix, m, order);
    var all := UrlsAlong(prefix, m, order);
    var own := Urls(prefix, m[entry].css);
    assert all == own + all[|own|..];
    DistinctConcat(own, all[|own|..]);
  }

  // ---------- when importers come first ----------

  /** Every chunk of the order precedes, or is, each chunk it imports. */
  ghost predicate ImportersFirst(m: Manifest, order: seq<string>)
    requires forall k <- order :: k in m
  {
    forall i, j :: 0 <= i < |order| && 0 <= j < |order| && order[j] in m[order[i]].imports ==> i <= j
  }

  /** Something present that the chunk imports has been met already. */
  predicate Meets(m: Manifest, key: string, seen: set<string>)
    requires key in m
  {
    exists k <- m[key].imports :: k in m && k in seen
  }

  /** The walk never meets a chunk after something it imports. */
  predicate Forward(m: Manifest, key: string, seen: set<string>)
    decreases m.Keys - seen, 1, 0
  {
    key in seen || key !in m || (!Meets(m, key, seen) && ForwardAll(m, m[key].imports, seen + {key}))
  }

  predicate ForwardAll(m: Manifest, keys: seq<string>, seen: set<string>)
    decreases m.Keys - seen, 2, |keys|
  {
    keys != [] ==>
      var n := |keys| - 1;
      var last := Dfs(m, keys[n], seen);
      assert m.Keys - last.seen <= m.Keys - seen;
      Forward(m, keys[n], seen) && ForwardAll(m, keys[..n], last.seen)
  }

  /** Importers come first in the order, and none of them imports anything met before it. */
  ghost predicate Ahead(m: Manifest, order: seq<string>, seen: set<string>)
    requires forall k <- order :: k in m
  {
    ImportersFirst(m, order) && forall k <- order :: !Meets(m, k, seen)
  }

  /** An order in two parts: what the first part lists counts as met for the second. */
  lemma AheadConcat(m: Manifest, a: seq<string>, b: seq<string>, seen: set<string>, later: set<string>)
    requires (forall k <- a :: k in m) && (forall k <- b :: k in m)
    requires forall k <- m.Keys :: k in later <==> k in seen || k in a
    ensures forall k <- a + b :: k in m
    ensures Ahead(m, a + b, seen) <==> Ahead(m, a, seen) && Ahead(m, b, later)
  {
    if Ahead(m, a + b, seen) {
      AheadSplits(m, a, b, seen, later);
    }
    if Ahead(m, a, seen) && Ahead(m, b, later) {
      AheadJoins(m, a, b, seen, later);
    }
  }

  lemma AheadSplits(m: Manifest, a: seq<string>, b: seq<string>, seen: set<string>, later: set<string>)
    requires forall k <- a + b :: k in m
    requires forall k <- m.Keys :: k in later <==> k in seen || k in a
    requires Ahead(m, a + b, seen)
    ensures (forall k <- a :: k in m) && (forall k <- b :: k in m) && Ahead(m, a, seen) && Ahead(m, b, later)
  {
    var all, n := a + b, |a|;
    assert forall i :: 0 <= i < n ==> all[i] == a[i] && a[i] in all;
    assert forall i :: 0 <= i < |b| ==> all[n + i] == b[i] && b[i] in all;
    forall k | k in b ensures !Meets(m, k, later) {
      var i :| 0 <= i < |b| && b[i] == k;
      assert !Meets(m, all[n + i], seen);
      forall j | 0 <= j < n ensures a[j] !in m[k].imports {
        assert all[j] == a[j];
      }
    }
  }

  lemma AheadJoins(m: Manifest, a: seq<string>, b: seq<string>, seen: set<string>, later: set<string>)
    requires (forall k <- a :: k in m) && (forall k <- b :: k in m)
    requires forall k <- m.Keys :: k in later <==> k in seen || k in a
    requires Ahead(m, a, seen) && Ahead(m, b, later)
    ensures (forall k <- a + b :: k in m) && Ahead(m, a + b, seen)
  {
    var all, n := a + b, |a|;
    assert forall k, x :: k in b && x in a ==> x !in m[k].imports;
    forall i, j | 0 <= i < |all| && 0 <= j < |all| && all[j] in m[all[i]].imports ensures i <= j {
      assert i >= n ==> all[i] == b[i - n] && all[i] in b;
      assert j < n ==> all[j] in a;
    }
    forall k | k in all ensures !Meets(m, k, seen) {
      assert k in a || k in b;
    }
  }

  lemma {:induction false} DfsAhead(m: Manifest, key: string, seen: set<string>)
    ensures forall k <- Dfs(m, key, seen).order :: k in m
    ensures Ahead(m, Dfs(m, key, seen).order, seen) <==> Forward(m, key, seen)
    decreases m.Keys - seen, 1, 0
  {
    DfsPresent(m, key, seen);
    if key !in seen && key in m {
      var below := DfsAll(m, m[key].imports, seen + {key});
      DfsAllAhead(m, m[key].imports, seen + {key});
      AheadConcat(m, [key], below.order, seen, seen + {key});
      assert Ahead(m, [key], seen) <==> !Meets(m, key, seen);
    }
  }

  lemma {:induction false} DfsAllAhead(m: Manifest, keys: seq<string>, seen: set<string>)
    ensures forall k <- DfsAll(m, keys, seen).order :: k in m
    ensures Ahead(m, DfsAll(m, keys, seen).order, seen) <==> ForwardAll(m, keys, seen)
    decreases m.Keys - seen, 2, |keys|
  {
    DfsAllPresent(m, keys, seen);
    if keys != [] {
      var n := |keys| - 1;
      var last := Dfs(m, keys[n], seen);
      assert m.Keys - last.seen <= m.Keys - seen;
      DfsAhead(m, keys[n], seen);
      DfsAllAhead(m, keys[..n], last.seen);
      DfsFinished(m, keys[n], seen);
      AheadConcat(m, last.order, DfsAll(m, keys[..n], last.seen).order, seen, last.seen);
    }
  }

  /**
   * The list is in dependency order, every importer before what it imports, exactly when the walk never
   * meets a chunk after something it imports.
   */
  lemma ImportersFirstExactly(m: Manifest, entry: string)
    ensures forall k <- Preorder(m, entry) :: k in m
    ensures ImportersFirst(m, Preorder(m, entry)) <==> Forward(m, entry, {})
  {
    DfsAhead(m, entry, {});
  }

  /** An instance of the other case: `b` comes before `c`, which imports it. */
  lemma ImportBeforeImporter()
    ensures var m: Manifest :=
              map["a" := Chunk("a", [], ["c", "b"]), "b" := Chunk("b", [], []), "c" := Chunk("c", [], ["b"])];
            Preorder(m, "a") == ["a", "b", "c"] && !Forward(m, "a", {})
  {
    var m: Manifest := map["a" := Chunk("a", [], ["c", "b"]), "b" := Chunk("b", [], []), "c" := Chunk("c", [], ["b"])];
    var s1, s2, s3 := {"a"}, {"a", "b"}, {"a", "b", "c"};
    assert Dfs(m, "b", s1) == Walk(s2, ["b"]);
    assert ["b"][..0] == [] && DfsAll(m, ["b"], s3) == Walk(s3, []);
    assert Dfs(m, "c", s2) == Walk(s3, ["c"]);
    assert ["c"][..0] == [] && DfsAll(m, ["c"], s2) == Walk(s3, ["c"]);
    assert ["c", "b"][..1] == ["c"] && DfsAll(m, ["c", "b"], s1) == Walk(s3, ["b", "c"]);
    assert {} + {"a"} == s1 && Dfs(m, "a", {}) == Walk(s3, ["a"] + ["b", "c"]);
    var order := Preorder(m, "a");
    ImportersFirstExactly(m, "a");
    assert order[1] in m[order[2]].imports;
  }

  /** `resolve`: development answers every path, production exactly the keys of the manifest. */
  method Resolve(resolver: Resolver, prefix: string, entry: string) returns (r: Option<EntryAssets>)
    ensures r.None? <==> resolver.FromManifest? && entry !in resolver.chunks
    ensures resolver.Dev? ==> r.Some? && IsUrl("", entry, r.value.js) && r.value.css == []
    ensures resolver.FromManifest? && r.Some? ==>
              && IsUrl(prefix, resolver.chunks[entry].file, r.value.js)
              && r.value.css == CssOf(prefix, resolver.chunks, entry)
  {
    TrimStartTrims(entry);
    match resolver
    case Dev =>
      assert "" + "/" + TrimStartSlashes(entry) == "/" + TrimStartSlashes(entry);
      r := Some(EntryAssets("/" + TrimStartSlashes(entry), []));
    case FromManifest(chunks) =>
      if entry in chunks {
        var css := CollectCss(prefix, chunks, entry);
        UrlExactly(prefix, chunks[entry].file, Url(prefix, chunks[entry].file));
        r := Some(EntryAssets(Url(prefix, chunks[entry].file), css));
      } else {
        r := None;
      }
  }
}
