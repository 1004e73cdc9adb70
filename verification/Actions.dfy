/**
  Build actions and the canonical key material they are identified by.
 */
module Actions {
  import opened Words
  import opened Digests

  /** A byte string. */
  type Str = seq<byte>

  datatype ActionSpec = ActionSpec(command: Str, options: map<Str, Str>)

  // ---- The order in which a map of options is iterated ----

  predicate LexLess(a: Str, b: Str) {
    b != [] && (a == [] || a[0] < b[0] || (a[0] == b[0] && LexLess(a[1..], b[1..])))
  }

  lemma {:induction false} LexTotal(a: Str, b: Str)
    ensures a == b || LexLess(a, b) || LexLess(b, a)
    ensures !(LexLess(a, b) && LexLess(b, a)) && !LexLess(a, a)
  {
    if a != [] && b != [] {
      LexTotal(a[1..], b[1..]);
      assert a == [a[0]] + a[1..] && b == [b[0]] + b[1..];
    }
    if a != [] {
      LexTotal(a[1..], a[1..]);
    }
  }

  lemma {:induction false} LexTransitive(a: Str, b: Str, c: Str)
    requires LexLess(a, b) && LexLess(b, c)
    ensures LexLess(a, c)
  {
    if a != [] && a[0] == b[0] && b[0] == c[0] {
      LexTransitive(a[1..], b[1..], c[1..]);
    }
  }

  predicate IsLeast(keys: set<Str>, k: Str) {
    k in keys && forall x :: x in keys && x != k ==> LexLess(k, x)
  }

  lemma {:induction false} LeastExists(keys: set<Str>) returns (k: Str)
    requires keys != {}
    ensures IsLeast(keys, k)
    decreases |keys|
  {
    var x :| x in keys;
    var rest := keys - {x};
    if rest == {} {
      assert keys == {x};
      return x;
    }
    var y := LeastExists(rest);
    LexTotal(x, y);
    k := if LexLess(x, y) then x else y;
    forall z | z in keys && z != k
      ensures LexLess(k, z)
    {
      if z in rest && z != y && k == x {
        LexTransitive(x, y, z);
      }
    }
  }

  lemma LeastUnique(keys: set<Str>, k: Str, l: Str)
    requires IsLeast(keys, k) && IsLeast(keys, l)
    ensures k == l
  {
    LexTotal(k, l);
  }

  ghost function Least(keys: set<Str>): (k: Str)
    requires keys != {}
    ensures IsLeast(keys, k) && k in keys
  {
    assert exists x :: IsLeast(keys, x) by {
      var x := LeastExists(keys);
    }
    var k :| IsLeast(keys, k);
    k
  }

  /** The entries in key order. */
  ghost function Entries(m: map<Str, Str>): seq<(Str, Str)>
    decreases |m|
  {
    if m == map[] then [] else
    assert m.Keys != {};
    var k := Least(m.Keys);
    assert |m - {k}| < |m| by { RemoveOne(m, k); }
    [(k, m[k])] + Entries(m - {k})
  }

  lemma RemoveOne(m: map<Str, Str>, k: Str)
    requires k in m
    ensures |m - {k}| == |m| - 1
  {
    assert (m - {k}).Keys == m.Keys - {k};
    assert |(m - {k}).Keys| == |m - {k}| && |m.Keys| == |m|;
  }

  lemma {:induction false} EntriesDetermineMap(m: map<Str, Str>, n: map<Str, Str>)
    requires Entries(m) == Entries(n)
    ensures m == n
    decreases |m|
  {
    hide IsLeast;
    if m != map[] && n != map[] {
      var k := Least(m.Keys);
      RemoveOne(m, k);
      var (a, b) := (Entries(m), Entries(n));
      assert a[0] == b[0] && a[1..] == b[1..];
      assert Least(n.Keys) == k && m[k] == n[k];
      EntriesDetermineMap(m - {k}, n - {k});
      assert m == (m - {k})[k := m[k]];
      assert n == (n - {k})[k := n[k]];
    }
  }

  /** Byte-wise order: at the first difference the smaller byte, or a proper prefix. */
  lemma {:induction false} LexLessIs(a: Str, b: Str)
    ensures LexLess(a, b) <==> exists p :: 0 <= p <= |a| && p < |b| && DiffersFirstAt(a, b, p)
  {
    if a != [] && b != [] && a[0] == b[0] {
      var s, t := a[1..], b[1..];
      LexLessIs(s, t);
      if LexLess(s, t) {
        var p :| 0 <= p <= |s| && p < |t| && DiffersFirstAt(s, t, p);
        assert a[..p + 1] == [a[0]] + s[..p] && b[..p + 1] == [b[0]] + t[..p];
        assert DiffersFirstAt(a, b, p + 1);
      }
      if p :| 0 <= p <= |a| && p < |b| && DiffersFirstAt(a, b, p) {
        assert p > 0;
        assert s[..p - 1] == a[..p][1..] && t[..p - 1] == b[..p][1..];
        assert DiffersFirstAt(s, t, p - 1);
      }
    } else if b != [] {
      if LexLess(a, b) {
        assert DiffersFirstAt(a, b, 0);
      }
      if p :| 0 <= p <= |a| && p < |b| && DiffersFirstAt(a, b, p) {
        if p > 0 {
          assert a[..p][0] == b[..p][0];
        }
      }
    }
  }

  /** `a` and `b` agree before `p`, and there `a` ends or has the smaller byte. */
  predicate DiffersFirstAt(a: Str, b: Str, p: int)
    requires 0 <= p <= |a| && p < |b|
  {
    a[..p] == b[..p] && (p == |a| || a[p] < b[p])
  }

  /** The entries are those of the map, in ascending order of their keys. */
  lemma {:induction false} EntriesAscend(m: map<Str, Str>)
    ensures var es := Entries(m);
      && (forall e :: e in es <==> e.0 in m && m[e.0] == e.1)
      && (forall i, j :: 0 <= i < j < |es| ==> LexLess(es[i].0, es[j].0))
    decreases |m|
  {
    hide LexLess;
    if m != map[] {
      var k := Least(m.Keys);
      var rest := m - {k};
      RemoveOne(m, k);
      EntriesAscend(rest);
      var es, fs := Entries(m), Entries(rest);
      assert es == [(k, m[k])] + fs;
      forall i, j | 0 <= i < j < |es|
        ensures LexLess(es[i].0, es[j].0)
      {
        assert es[j] == fs[j - 1] && fs[j - 1] in fs;
        if i > 0 {
          assert es[i] == fs[i - 1];
        }
      }
    }
  }

  // ---- Key material ----

  /** "forge-action-key-v1" */
  const TAG: Str := [
    0x66, 0x6f, 0x72, 0x67, 0x65, 0x2d, 0x61, 0x63, 0x74, 0x69, 0x6f, 0x6e, 0x2d, 0x6b, 0x65, 0x79, 0x2d, 0x76, 0x31]

  /** "action" */
  const DOMAIN: Str := [0x61, 0x63, 0x74, 0x69, 0x6f, 0x6e]

  predicate Spells(s: Str, text: string) {
    |s| == |text| && forall i :: 0 <= i < |s| ==> s[i] == text[i] as int
  }

  lemma TagsSpelled()
    ensures Spells(TAG, "forge-action-key-v1") && Spells(DOMAIN, "action")
  {
  }

  function Prefixed(s: Str): Str {
    Le(|s| % 0x1_0000_0000, 4) + s
  }

  function Listed(es: seq<(Str, Str)>): Str {
    if es == [] then [] else Prefixed(es[0].0) + Prefixed(es[0].1) + Listed(es[1..])
  }

  function WordBytes(ds: seq<Digest>): Str {
    if ds == [] then [] else
    Le(ds[0].w0, 8) + Le(ds[0].w1, 8) + Le(ds[0].w2, 8) + Le(ds[0].w3, 8) + WordBytes(ds[1..])
  }

  ghost function Material(a: ActionSpec, inputs: seq<Digest>, dependencies: seq<Digest>): Str {
    Prefixed(TAG) + Prefixed(a.command) + Listed(Entries(a.options)) + WordBytes(inputs) + WordBytes(dependencies)
  }

  ghost function ActionKey(a: ActionSpec, inputs: seq<Digest>, dependencies: seq<Digest>): Digest {
    DigestOf(DOMAIN, Material(a, inputs, dependencies))
  }

  method AppendString(material: Str, s: Str) returns (out: Str)
    ensures out == material + Prefixed(s)
  {
    hide Le;
    out := AppendLe(material, |s| % 0x1_0000_0000, 4);
    out := out + s;
  }

  method AppendDigests(material: Str, ds: seq<Digest>) returns (out: Str)
    ensures out == material + WordBytes(ds)
  {
    hide Le;
    out := material;
    for i := 0 to |ds|
      invariant out + WordBytes(ds[i..]) == material + WordBytes(ds)
    {
      ghost var before, rest := out, WordBytes(ds[i + 1..]);
      assert ds[i..][1..] == ds[i + 1..];
      out := AppendLe(out, ds[i].w0, 8);
      out := AppendLe(out, ds[i].w1, 8);
      out := AppendLe(out, ds[i].w2, 8);
      out := AppendLe(out, ds[i].w3, 8);
      assert out + rest == before + WordBytes(ds[i..]);
    }
  }

  /** The loop over the options, in key order. */
  method AppendOptions(start: Str, options: map<Str, Str>) returns (material: Str)
    ensures material == start + Listed(Entries(options))
  {
    hide Prefixed, IsLeast, Entries, Listed;
    material := start;
    var rest := options;
    while rest != map[]
      invariant material + Listed(Entries(rest)) == start + Listed(Entries(options))
      decreases |rest|
    {
      ghost var k0 := LeastExists(rest.Keys);
      var k :| k in rest.Keys && IsLeast(rest.Keys, k);
      LeastUnique(rest.Keys, k, Least(rest.Keys));
      RemoveOne(rest, k);
      ListedNext(material, rest, k);
      material := AppendString(material, k);
      material := AppendString(material, rest[k]);
      rest := rest - {k};
    }
    ListedNothing(material);
  }

  lemma ListedNext(before: Str, m: map<Str, Str>, k: Str)
    requires m != map[] && k == Least(m.Keys)
    ensures before + Listed(Entries(m)) == before + Prefixed(k) + Prefixed(m[k]) + Listed(Entries(m - {k}))
  {
    hide Prefixed, Least;
    var es := Entries(m);
    assert es[0] == (k, m[k]) && es[1..] == Entries(m - {k});
  }

  lemma ListedNothing(before: Str)
    ensures before + Listed(Entries(map[])) == before
  {
  }

  method ActionKeyFor(a: ActionSpec, inputs: seq<Digest>, dependencies: seq<Digest>) returns (key: Digest)
    ensures key == ActionKey(a, inputs, dependencies)
  {
    hide Prefixed, DigestOf, Entries, Listed;
    var material := AppendString([], TAG);
    material := AppendString(material, a.command);
    assert material == Prefixed(TAG) + Prefixed(a.command);
    material := AppendOptions(material, a.options);
    material := AppendDigests(material, inputs);
    material := AppendDigests(material, dependencies);
    key := DigestBytes(DOMAIN, material);
  }

  // ---- What the material tells apart ----

  /** All strings are shorter than 2^32 bytes. */
  predicate Short(a: ActionSpec) {
    && |a.command| < 0x1_0000_0000
    && forall k :: k in a.options ==> |k| < 0x1_0000_0000 && |a.options[k]| < 0x1_0000_0000
  }

  predicate ShortEntries(es: seq<(Str, Str)>) {
    forall i :: 0 <= i < |es| ==> |es[i].0| < 0x1_0000_0000 && |es[i].1| < 0x1_0000_0000
  }

  /** A length-prefixed string can be split off again. */
  lemma PrefixedSplits(s: Str, x: Str, t: Str, y: Str)
    requires |s| < 0x1_0000_0000 && |t| < 0x1_0000_0000
    requires Prefixed(s) + x == Prefixed(t) + y
    ensures s == t && x == y
  {
    hide Le;
    Spans();
    var l, r := Prefixed(s) + x, Prefixed(t) + y;
    assert l[..4] == Le(|s|, 4) && r[..4] == Le(|t|, 4);
    ReadWritten(|s|, 4);
    ReadWritten(|t|, 4);
    assert l[4..4 + |s|] == s && r[4..4 + |t|] == t;
    assert l[4 + |s|..] == x && r[4 + |t|..] == y;
  }

  lemma PrefixedNotEmpty(s: Str)
    ensures Prefixed(s) != []
  {
  }

  /** Where one list of entries, and whatever follows it, can agree with a list at least as long. */
  lemma {:induction false} ListedPrefix(es: seq<(Str, Str)>, x: Str, fs: seq<(Str, Str)>, y: Str)
    requires ShortEntries(es) && ShortEntries(fs) && |es| <= |fs|
    ensures Listed(es) + x == Listed(fs) + y <==> es <= fs && x == Listed(fs[|es|..]) + y
    decreases |es|
  {
    hide Prefixed;
    if es == [] {
      assert Listed(es) + x == x && fs[0..] == fs;
    } else {
      var e, f := es[0], fs[0];
      var l, r := Listed(es[1..]) + x, Listed(fs[1..]) + y;
      assert Listed(es) + x == Prefixed(e.0) + (Prefixed(e.1) + l);
      assert Listed(fs) + y == Prefixed(f.0) + (Prefixed(f.1) + r);
      ListedPrefix(es[1..], x, fs[1..], y);
      assert fs[1..][|es| - 1..] == fs[|es|..];
      assert es <= fs <==> e == f && es[1..] <= fs[1..] by { PrefixHeadTail(es, fs); }
      if Listed(es) + x == Listed(fs) + y {
        PrefixedSplits(e.0, Prefixed(e.1) + l, f.0, Prefixed(f.1) + r);
        PrefixedSplits(e.1, l, f.1, r);
      }
    }
  }

  lemma PrefixHeadTail<T>(s: seq<T>, t: seq<T>)
    requires 0 < |s| <= |t|
    ensures s <= t <==> s[0] == t[0] && s[1..] <= t[1..]
  {
    assert s == [s[0]] + s[1..] && t[..|s|] == [t[0]] + t[1..][..|s| - 1];
  }

  lemma {:induction false} EntriesShort(m: map<Str, Str>)
    requires forall k :: k in m ==> |k| < 0x1_0000_0000 && |m[k]| < 0x1_0000_0000
    ensures ShortEntries(Entries(m)) && |Entries(m)| == |m|
    decreases |m|
  {
    if m != map[] {
      var k := Least(m.Keys);
      RemoveOne(m, k);
      EntriesShort(m - {k});
      assert Entries(m) == [(k, m[k])] + Entries(m - {k});
    }
  }

  /**
    When two materials are equal: the commands agree, the options with fewer entries are the first
    entries of the other, and the entries left over read exactly like the digests they stand for.
   */
  lemma MaterialsEqualIff(
      a: ActionSpec, xs: seq<Digest>, ys: seq<Digest>, b: ActionSpec, us: seq<Digest>, vs: seq<Digest>)
    requires Short(a) && Short(b) && |a.options| <= |b.options|
    ensures |Entries(b.options)| == |b.options|
    ensures Material(a, xs, ys) == Material(b, us, vs) <==>
      && a.command == b.command && Entries(a.options) <= Entries(b.options)
      && WordBytes(xs + ys) == Listed(Entries(b.options)[|a.options|..]) + WordBytes(us + vs)
  {
    hide Prefixed, Entries, Listed, WordBytes;
    var es, fs := Entries(a.options), Entries(b.options);
    var x, y := WordBytes(xs + ys), WordBytes(us + vs);
    EntriesShort(a.options);
    EntriesShort(b.options);
    ListedPrefix(es, x, fs, y);
    var l, r := Listed(es) + x, Listed(fs) + y;
    MaterialParts(a, xs, ys);
    MaterialParts(b, us, vs);
    if Material(a, xs, ys) == Material(b, us, vs) {
      PrefixedSplits(TAG, Prefixed(a.command) + l, TAG, Prefixed(b.command) + r);
      PrefixedSplits(a.command, l, b.command, r);
    }
  }

  lemma MaterialParts(a: ActionSpec, xs: seq<Digest>, ys: seq<Digest>)
    ensures Material(a, xs, ys) ==
      Prefixed(TAG) + (Prefixed(a.command) + (Listed(Entries(a.options)) + WordBytes(xs + ys)))
  {
    hide Prefixed, Entries, Listed, WordBytes;
    WordBytesConcat(xs, ys);
  }

  /** The two digest lists run together: where one ends and the other begins is not in the material. */
  lemma DigestListsRunTogether(a: ActionSpec, xs: seq<Digest>, ys: seq<Digest>)
    ensures Material(a, xs, ys) == Material(a, xs + ys, [])
  {
    hide Material, Prefixed, Entries, Listed, WordBytes;
    MaterialParts(a, xs, ys);
    MaterialParts(a, xs + ys, []);
    assert xs + ys + [] == xs + ys;
  }

  /**
    Between actions with equally many options the material identifies command, options and the
    joined digests: only where one digest list ends and the other begins is not in it.
   */
  lemma MaterialIdentifies(
      a: ActionSpec, xs: seq<Digest>, ys: seq<Digest>, b: ActionSpec, us: seq<Digest>, vs: seq<Digest>)
    requires Short(a) && Short(b) && |a.options| == |b.options|
    ensures Material(a, xs, ys) == Material(b, us, vs) <==> a == b && xs + ys == us + vs
  {
    hide Prefixed, Entries, WordBytes, Material;
    MaterialsEqualIff(a, xs, ys, b, us, vs);
    MaterialsEqualIff(b, us, vs, a, xs, ys);
    var es, fs := Entries(a.options), Entries(b.options);
    assert fs[|b.options|..] == [] && Listed([]) + WordBytes(us + vs) == WordBytes(us + vs);
    if Material(a, xs, ys) == Material(b, us, vs) {
      assert es == fs;
      EntriesDetermineMap(a.options, b.options);
      WordBytesInjective(xs + ys, us + vs);
    }
  }

  /** As `build` calls it, with no digests: the material is equal exactly when command and options are. */
  lemma MaterialIdentifiesAction(a: ActionSpec, b: ActionSpec)
    requires Short(a) && Short(b)
    ensures Material(a, [], []) == Material(b, [], []) <==> a == b
    decreases |a.options|
  {
    hide Prefixed, Entries, Material;
    if |a.options| > |b.options| {
      MaterialIdentifiesAction(b, a);
    } else {
      MaterialsEqualIff(a, [], [], b, [], []);
      var none: seq<Digest> := [];
      assert none + none == none && WordBytes(none) == [];
      var rest := Entries(b.options)[|a.options|..];
      if Material(a, [], []) == Material(b, [], []) {
        assert rest == [] by {
          if rest != [] {
            PrefixedNotEmpty(rest[0].0);
          }
        }
        MaterialIdentifies(a, [], [], b, [], []);
      }
    }
  }

  /**
    Two actions can share material, each with digests of its own, exactly when the commands agree, the
    options with fewer entries are the first entries of the other, and the entries left over fill whole digests.
   */
  lemma ActionsCollideIff(a: ActionSpec, b: ActionSpec)
    requires Short(a) && Short(b) && |a.options| <= |b.options|
    ensures |Entries(b.options)| == |b.options|
    ensures (exists xs, us :: Material(a, xs, []) == Material(b, us, [])) <==>
      && a.command == b.command && Entries(a.options) <= Entries(b.options)
      && |Listed(Entries(b.options)[|a.options|..])| % 32 == 0
  {
    hide Prefixed, Entries, Material, Listed, WordBytes;
    EntriesShort(b.options);
    var left := Listed(Entries(b.options)[|a.options|..]);
    if xs, us :| Material(a, xs, []) == Material(b, us, []) {
      MaterialsEqualIff(a, xs, [], b, us, []);
      assert xs + [] == xs && us + [] == us;
      WordBytesLength(xs);
      WordBytesLength(us);
    }
    if a.command == b.command && Entries(a.options) <= Entries(b.options) && |left| % 32 == 0 {
      var xs := DigestsOf(left);
      MaterialsEqualIff(a, xs, [], b, [], []);
      var none: seq<Digest> := [];
      assert xs + none == xs && none + none == none;
      WordBytesLength([]);
      assert left + WordBytes([]) == left;
    }
  }

  /** Options run into digests: one option of twelve and twelve bytes reads like one digest and no option. */
  lemma OptionReadsLikeDigest(command: Str, k: Str, v: Str)
    requires |command| < 0x1_0000_0000 && |k| == |v| == 12
    ensures exists xs, us ::
      Material(ActionSpec(command, map[]), xs, []) == Material(ActionSpec(command, map[k := v]), us, [])
  {
    hide Material, Entries, Listed, Prefixed;
    var a, b := ActionSpec(command, map[]), ActionSpec(command, map[k := v]);
    SingleEntry(k, v);
    assert [(k, v)][0..] == [(k, v)];
    ActionsCollideIff(a, b);
  }

  lemma SingleEntry(k: Str, v: Str)
    ensures Entries(map[]) == [] && Entries(map[k := v]) == [(k, v)]
    ensures |Listed([(k, v)])| == 8 + |k| + |v|
  {
    hide LexLess, Le;
    var m := map[k := v];
    assert Least(m.Keys) == k && m - {k} == map[];
    assert Entries(m) == [(k, v)] + Entries(m - {k});
    assert Listed([(k, v)]) == Prefixed(k) + Prefixed(v) + Listed([]);
  }

  lemma {:induction false} WordBytesConcat(xs: seq<Digest>, ys: seq<Digest>)
    ensures WordBytes(xs + ys) == WordBytes(xs) + WordBytes(ys)
    decreases |xs|
  {
    hide Le;
    if xs == [] {
      assert xs + ys == ys;
    } else {
      assert (xs + ys)[0] == xs[0] && (xs + ys)[1..] == xs[1..] + ys;
      WordBytesConcat(xs[1..], ys);
    }
  }

  lemma {:induction false} WordBytesLength(ds: seq<Digest>)
    ensures |WordBytes(ds)| == 32 * |ds|
  {
    hide Le;
    if ds != [] {
      WordBytesLength(ds[1..]);
    }
  }

  lemma WordSplits(v: u64, x: Str, w: u64, y: Str)
    requires Le(v, 8) + x == Le(w, 8) + y
    ensures v == w && x == y
  {
    hide Le;
    Spans();
    var l, r := Le(v, 8) + x, Le(w, 8) + y;
    assert l[..8] == Le(v, 8) && r[..8] == Le(w, 8) && l[8..] == x && r[8..] == y;
    ReadWritten(v, 8);
    ReadWritten(w, 8);
  }

  lemma {:induction false} WordBytesInjective(xs: seq<Digest>, ys: seq<Digest>)
    requires WordBytes(xs) == WordBytes(ys)
    ensures xs == ys
    decreases |xs|
  {
    hide Le;
    WordBytesLength(xs);
    WordBytesLength(ys);
    if xs != [] {
      var d, e, p, q := xs[0], ys[0], WordBytes(xs[1..]), WordBytes(ys[1..]);
      var p3, q3 := Le(d.w3, 8) + p, Le(e.w3, 8) + q;
      var p2, q2 := Le(d.w2, 8) + p3, Le(e.w2, 8) + q3;
      var p1, q1 := Le(d.w1, 8) + p2, Le(e.w1, 8) + q2;
      assert WordBytes(xs) == Le(d.w0, 8) + p1 && WordBytes(ys) == Le(e.w0, 8) + q1;
      WordSplits(d.w0, p1, e.w0, q1);
      WordSplits(d.w1, p2, e.w1, q2);
      WordSplits(d.w2, p3, e.w2, q3);
      WordSplits(d.w3, p, e.w3, q);
      WordBytesInjective(xs[1..], ys[1..]);
      assert xs == [d] + xs[1..] && ys == [e] + ys[1..];
    }
  }

  /** Any bytes that fill whole digests are the bytes of digests. */
  lemma {:induction false} DigestsOf(s: Str) returns (ds: seq<Digest>)
    requires |s| % 32 == 0
    ensures WordBytes(ds) == s
    decreases |s|
  {
    hide Le, FromLe;
    Spans();
    if s == [] {
      return [];
    }
    var rest := DigestsOf(s[32..]);
    WriteRead(s[0..8]);
    WriteRead(s[8..16]);
    WriteRead(s[16..24]);
    WriteRead(s[24..32]);
    var d := Digest(FromLe(s[0..8]), FromLe(s[8..16]), FromLe(s[16..24]), FromLe(s[24..32]));
    ds := [d] + rest;
    assert ds[1..] == rest;
    assert s == s[0..8] + s[8..16] + s[16..24] + s[24..32] + s[32..];
  }
}
