/** Categorising, sorting and the top-K selection of main()
    (main.py:350-391), and the text of each output file. */
module Ranking {
  import opened Common
  import opened Descriptor
  import opened Probe
  import PyText
  import Base64

  /** `TOP_N_PROXIES` (main.py:26). */
  const TopN: nat := 15

  // ---------------------------------------------------------------- sorting

  predicate SortedByLatency(s: seq<LiveItem>)
  {
    forall i, j :: 0 <= i < j < |s| ==> s[i].latency <= s[j].latency
  }

  /** Inserts `x` before the first item of `t` that is slower than it. */
  function Insert(x: LiveItem, t: seq<LiveItem>): (r: seq<LiveItem>)
    ensures |r| == |t| + 1
    ensures multiset(r) == multiset(t) + multiset{x}
  {
    if t == [] || x.latency <= t[0].latency then [x] + t
    else
      assert t == [t[0]] + t[1..];
      [t[0]] + Insert(x, t[1..])
  }

  /** `sorted(s, key=lambda x: x['latency'])`: Python's sort is stable, so
      this insertion sort, which keeps items of equal latency in input order,
      gives the same list. */
  function SortByLatency(s: seq<LiveItem>): (r: seq<LiveItem>)
    ensures |r| == |s|
  {
    if s == [] then [] else Insert(s[0], SortByLatency(s[1..]))
  }

  lemma {:induction false} InsertSorted(x: LiveItem, t: seq<LiveItem>)
    requires SortedByLatency(t)
    ensures SortedByLatency(Insert(x, t))
    ensures forall y :: y in Insert(x, t) ==> y == x || y in t
  {
    if t != [] && x.latency > t[0].latency {
      InsertSorted(x, t[1..]);
      var r := Insert(x, t);
      assert r == [t[0]] + Insert(x, t[1..]);
      forall y | y in Insert(x, t[1..]) ensures t[0].latency <= y.latency {
        assert y == x || y in t[1..];
      }
    }
  }

  /** The sort orders by latency. */
  lemma {:induction false} SortSorted(s: seq<LiveItem>)
    ensures SortedByLatency(SortByLatency(s))
  {
    if s != [] {
      SortSorted(s[1..]);
      InsertSorted(s[0], SortByLatency(s[1..]));
    }
  }

  /** The sort is a permutation. */
  lemma {:induction false} SortPermutes(s: seq<LiveItem>)
    ensures multiset(SortByLatency(s)) == multiset(s)
  {
    if s != [] {
      SortPermutes(s[1..]);
      assert s == [s[0]] + s[1..];
    }
  }

  /** The items of latency `l`, in order. */
  function WithLatency(s: seq<LiveItem>, l: nat): seq<LiveItem>
  {
    if s == [] then [] else (if s[0].latency == l then [s[0]] else []) + WithLatency(s[1..], l)
  }

  lemma SortedTail(t: seq<LiveItem>)
    requires t != [] && SortedByLatency(t)
    ensures SortedByLatency(t[1..])
  {
    var t' := t[1..];
    forall i, j | 0 <= i < j < |t'| ensures t'[i].latency <= t'[j].latency {
      assert t'[i] == t[i + 1] && t'[j] == t[j + 1];
    }
  }

  lemma {:induction false} InsertWithLatency(x: LiveItem, t: seq<LiveItem>, l: nat)
    requires SortedByLatency(t)
    ensures WithLatency(Insert(x, t), l) == (if x.latency == l then [x] else []) + WithLatency(t, l)
  {
    var r := Insert(x, t);
    if t != [] && x.latency > t[0].latency {
      var t' := t[1..];
      SortedTail(t);
      InsertWithLatency(x, t', l);
      assert r[0] == t[0] && r[1..] == Insert(x, t');
      assert WithLatency(r, l) == (if t[0].latency == l then [t[0]] else []) + WithLatency(Insert(x, t'), l);
      assert WithLatency(t, l) == (if t[0].latency == l then [t[0]] else []) + WithLatency(t', l);
      if x.latency == l {
        assert t[0].latency != l;
      }
    } else {
      assert r[0] == x && r[1..] == t;
    }
  }

  /** The sort is stable: the items of any one latency keep their order. */
  lemma {:induction false} SortStable(s: seq<LiveItem>, l: nat)
    ensures WithLatency(SortByLatency(s), l) == WithLatency(s, l)
  {
    if s != [] {
      SortStable(s[1..], l);
      SortSorted(s[1..]);
      InsertWithLatency(s[0], SortByLatency(s[1..]), l);
    }
  }

  // ------------------------------------------------------------- categories

  /** Python's `<` on text: code point by code point, a proper prefix first. */
  predicate TextLess(a: string, b: string)
  {
    if a == [] then b != []
    else if b == [] then false
    else a[0] < b[0] || (a[0] == b[0] && TextLess(a[1..], b[1..]))
  }

  lemma {:induction false} TextLessTransitive(a: string, b: string, c: string)
    requires TextLess(a, b) && TextLess(b, c)
    ensures TextLess(a, c)
  {
    if a != [] && b != [] && c != [] && a[0] == b[0] && b[0] == c[0] {
      TextLessTransitive(a[1..], b[1..], c[1..]);
    }
  }

  /** Every tag in `sorted(categorized_configs.keys())` order. */
  const CategoryOrder: seq<Scheme> := [Hy2, Hysteria, Ss, Trojan, Tuic, Vless, Vmess]

  /** The category order is the order of the tags as text. */
  lemma CategoryOrderSorted()
    ensures forall i, j :: 0 <= i < j < |CategoryOrder| ==> TextLess(Tag(CategoryOrder[i]), Tag(CategoryOrder[j]))
  {
    AdjacentTagsOrdered();
    forall i, j | 0 <= i < j < |CategoryOrder| ensures TextLess(Tag(CategoryOrder[i]), Tag(CategoryOrder[j])) {
      SortedStep(i, j);
    }
  }

  lemma AdjacentTagsOrdered()
    ensures forall k :: 0 <= k < |CategoryOrder| - 1 ==> TextLess(Tag(CategoryOrder[k]), Tag(CategoryOrder[k + 1]))
  {
    var o := CategoryOrder;
    assert TextLess("hy2", "hysteria") by { assert "hy2"[1..] == "y2" && "hysteria"[1..] == "ysteria"; }
    assert TextLess(Tag(o[1]), Tag(o[2]));
    assert TextLess(Tag(o[2]), Tag(o[3]));
    assert TextLess("trojan", "tuic") by { assert "trojan"[1..] == "rojan" && "tuic"[1..] == "uic"; }
    assert TextLess(Tag(o[4]), Tag(o[5]));
    assert TextLess("vless", "vmess") by { assert "vless"[1..] == "less" && "vmess"[1..] == "mess"; }
  }

  /** The category order names every scheme, */
  lemma CategoryOrderCovers()
    ensures forall k: Scheme :: k in CategoryOrder
  {
    var o := CategoryOrder;
    forall k: Scheme ensures k in o {
      match k
      case Hy2 => assert o[0] == k;
      case Hysteria => assert o[1] == k;
      case Ss => assert o[2] == k;
      case Trojan => assert o[3] == k;
      case Tuic => assert o[4] == k;
      case Vless => assert o[5] == k;
      case Vmess => assert o[6] == k;
    }
  }

  /** and each one once. */
  lemma CategoryOrderDistinct()
    ensures forall i, j :: 0 <= i < j < |CategoryOrder| ==> CategoryOrder[i] != CategoryOrder[j]
  {
  }

  lemma {:induction false} SortedStep(i: nat, j: nat)
    requires i < j < |CategoryOrder|
    requires forall k :: 0 <= k < |CategoryOrder| - 1 ==> TextLess(Tag(CategoryOrder[k]), Tag(CategoryOrder[k + 1]))
    ensures TextLess(Tag(CategoryOrder[i]), Tag(CategoryOrder[j]))
    decreases j - i
  {
    if j > i + 1 {
      SortedStep(i + 1, j);
      TextLessTransitive(Tag(CategoryOrder[i]), Tag(CategoryOrder[i + 1]), Tag(CategoryOrder[j]));
    }
  }

  /** `detect_type(item['config']) == k`. */
  function OfKind(k: Scheme): LiveItem -> bool
  {
    (x: LiveItem) => DetectType(x.config) == Some(k)
  }

  /** The items of category `k`, in order. */
  function OfType(items: seq<LiveItem>, k: Scheme): seq<LiveItem>
  {
    Filter(OfKind(k), items)
  }

  /** `groups` holds, for every category with items in `items`, those items. */
  ghost predicate Grouped(groups: map<Scheme, seq<LiveItem>>, items: seq<LiveItem>)
  {
    forall k :: (k in groups <==> OfType(items, k) != []) && (k in groups ==> groups[k] == OfType(items, k))
  }

  /** `categorized_configs` after the loop: each category with items, holding
      its items in order. */
  function GroupsOf(items: seq<LiveItem>): map<Scheme, seq<LiveItem>>
  {
    map k | k in CategoryOrder && OfType(items, k) != [] :: OfType(items, k)
  }

  /** A map grouped from `items` is `GroupsOf(items)`. */
  lemma GroupsOfUnique(items: seq<LiveItem>, groups: map<Scheme, seq<LiveItem>>)
    requires Grouped(groups, items)
    ensures groups == GroupsOf(items)
  {
    CategoryOrderCovers();
  }

  lemma GroupsOfGrouped(items: seq<LiveItem>)
    ensures Grouped(GroupsOf(items), items)
  {
    CategoryOrderCovers();
  }

  /** The categorising loop (main.py:350-353): `setdefault(c_type, []).append(item)`
      for every item whose descriptor has a type. */
  method GroupByType(items: seq<LiveItem>) returns (groups: map<Scheme, seq<LiveItem>>)
    ensures forall k :: k in groups <==> OfType(items, k) != []
    ensures forall k :: k in groups ==> groups[k] == OfType(items, k)
  {
    groups := map[];
    for n := 0 to |items|
      invariant Grouped(groups, items[..n])
    {
      var item := items[n];
      var t := DetectType(item.config);
      ghost var before := groups;
      if t.Some? {
        var k := t.value;
        var g := if k in groups then groups[k] else [];
        groups := groups[k := g + [item]];
        GroupStep(items, n, t, before, groups);
      } else {
        GroupStep(items, n, t, before, groups);
      }
    }
    assert items[..|items|] == items;
  }

  lemma GroupStep(items: seq<LiveItem>, n: nat, t: Option<Scheme>, before: map<Scheme, seq<LiveItem>>, after: map<Scheme, seq<LiveItem>>)
    requires n < |items| && t == DetectType(items[n].config)
    requires Grouped(before, items[..n])
    requires after == if t.Some? then before[t.value := (if t.value in before then before[t.value] else []) + [items[n]]] else before
    ensures Grouped(after, items[..n + 1])
  {
    forall k ensures (k in after <==> OfType(items[..n + 1], k) != []) && (k in after ==> after[k] == OfType(items[..n + 1], k)) {
      OfTypeStep(items, n, t, k);
      assert (k in before <==> OfType(items[..n], k) != []) && (k in before ==> before[k] == OfType(items[..n], k));
    }
  }

  lemma OfTypeStep(items: seq<LiveItem>, n: nat, t: Option<Scheme>, k: Scheme)
    requires n < |items| && t == DetectType(items[n].config)
    ensures OfType(items[..n + 1], k) == OfType(items[..n], k) + (if t == Some(k) then [items[n]] else [])
  {
    FilterStep(OfKind(k), items, n);
    assert OfKind(k)(items[n]) == (t == Some(k));
  }

  /** `sorted(categorized_configs.keys())` (main.py:354): exactly the
      categories present, each once, in ascending order of their tags. */
  function Present(groups: map<Scheme, seq<LiveItem>>): (r: seq<Scheme>)
    ensures forall c :: c in r <==> c in groups
    ensures forall i, j :: 0 <= i < j < |r| ==> TextLess(Tag(r[i]), Tag(r[j])) && r[i] != r[j]
  {
    CategoryOrderCovers();
    CategoryOrderSorted();
    CategoryOrderDistinct();
    Selected((c: Scheme) => c in groups, CategoryOrder)
  }

  /** The categories that satisfy `p`, taken in an `order` that lists every
      category once in ascending order of the tags. */
  function Selected(p: Scheme -> bool, order: seq<Scheme>): (r: seq<Scheme>)
    requires forall k: Scheme :: k in order
    requires forall i, j :: 0 <= i < j < |order| ==> TextLess(Tag(order[i]), Tag(order[j]))
    requires forall i, j :: 0 <= i < j < |order| ==> order[i] != order[j]
    ensures forall c :: c in r <==> p(c)
    ensures forall i, j :: 0 <= i < j < |r| ==> TextLess(Tag(r[i]), Tag(r[j])) && r[i] != r[j]
  {
    var before := (a: Scheme, b: Scheme) => TextLess(Tag(a), Tag(b)) && a != b;
    FilterOrdered(p, order, before);
    forall c | p(c) ensures c in Filter(p, order) {
      FilterContains(p, order, c);
    }
    Filter(p, order)
  }

  /** `proxies[:TOP_N_PROXIES]`. */
  function Take(s: seq<LiveItem>, n: nat): (r: seq<LiveItem>)
    ensures |r| == if |s| < n then |s| else n
    ensures r == s[..|r|]
  {
    if |s| <= n then s else s[..n]
  }

  /** `top_fastest_proxies` after the loop over `cats`. */
  function TopOf(groups: map<Scheme, seq<LiveItem>>, cats: seq<Scheme>): seq<LiveItem>
    requires forall c :: c in cats ==> c in groups
  {
    if cats == [] then []
    else
      var n := |cats| - 1;
      TopOf(groups, cats[..n]) + Take(SortByLatency(groups[cats[n]]), TopN)
  }

  /** The per-category files after the loop over `cats`: each category with
      its items sorted by latency. */
  function FilesOf(groups: map<Scheme, seq<LiveItem>>, cats: seq<Scheme>): (r: seq<(Scheme, seq<LiveItem>)>)
    requires forall c :: c in cats ==> c in groups
    ensures |r| == |cats|
  {
    if cats == [] then []
    else
      var n := |cats| - 1;
      FilesOf(groups, cats[..n]) + [(cats[n], SortByLatency(groups[cats[n]]))]
  }

  /** The ranking loop (main.py:364-377): each category sorted by latency,
      its first `TOP_N_PROXIES` added to the fast list and its size to the
      breakdown. */
  method RankCategories(groups: map<Scheme, seq<LiveItem>>)
    returns (files: seq<(Scheme, seq<LiveItem>)>, top: seq<LiveItem>, breakdown: map<Scheme, nat>)
    ensures files == FilesOf(groups, Present(groups))
    ensures top == TopOf(groups, Present(groups))
    ensures breakdown.Keys == groups.Keys && forall c :: c in breakdown ==> breakdown[c] == |groups[c]|
  {
    var cats := Present(groups);
    files, top, breakdown := RankIn(groups, cats);
  }

  /** The ranking loop over the categories `cats`, in that order. */
  method RankIn(groups: map<Scheme, seq<LiveItem>>, cats: seq<Scheme>)
    returns (files: seq<(Scheme, seq<LiveItem>)>, top: seq<LiveItem>, breakdown: map<Scheme, nat>)
    requires forall c :: c in cats ==> c in groups
    ensures files == FilesOf(groups, cats)
    ensures top == TopOf(groups, cats)
    ensures breakdown.Keys == (set c | c in cats) && forall c :: c in breakdown ==> breakdown[c] == |groups[c]|
  {
    files, top, breakdown := [], [], map[];
    for i := 0 to |cats|
      invariant files == FilesOf(groups, cats[..i])
      invariant top == TopOf(groups, cats[..i])
      invariant breakdown.Keys == (set c | c in cats[..i])
      invariant forall c :: c in breakdown ==> breakdown[c] == |groups[c]|
    {
      var c := cats[i];
      var proxies := SortByLatency(groups[c]);
      FilesStep(groups, cats, i);
      TopStep(groups, cats, i);
      PrefixSnoc(cats, i);
      BreakdownStep(groups, cats[..i], cats[..i + 1], c, breakdown);
      top := top + Take(proxies, TopN);
      breakdown := breakdown[c := |proxies|];
      files := files + [(c, proxies)];
    }
    assert cats[..|cats|] == cats;
  }

  lemma FilesStep(groups: map<Scheme, seq<LiveItem>>, cats: seq<Scheme>, i: nat)
    requires i < |cats| && forall c :: c in cats ==> c in groups
    ensures FilesOf(groups, cats[..i + 1]) == FilesOf(groups, cats[..i]) + [(cats[i], SortByLatency(groups[cats[i]]))]
  {
    assert cats[..i + 1][..i] == cats[..i];
  }

  lemma TopStep(groups: map<Scheme, seq<LiveItem>>, cats: seq<Scheme>, i: nat)
    requires i < |cats| && forall c :: c in cats ==> c in groups
    ensures TopOf(groups, cats[..i + 1]) == TopOf(groups, cats[..i]) + Take(SortByLatency(groups[cats[i]]), TopN)
  {
    assert cats[..i + 1][..i] == cats[..i];
  }

  lemma PrefixSnoc(cats: seq<Scheme>, i: nat)
    requires i < |cats|
    ensures cats[..i + 1] == cats[..i] + [cats[i]]
  {
  }

  lemma BreakdownStep(groups: map<Scheme, seq<LiveItem>>, pre: seq<Scheme>, next: seq<Scheme>, c: Scheme,
                      breakdown: map<Scheme, nat>)
    requires next == pre + [c] && forall x :: x in next ==> x in groups
    requires breakdown.Keys == (set x | x in pre) && forall k :: k in breakdown ==> breakdown[k] == |groups[k]|
    ensures var b := breakdown[c := |SortByLatency(groups[c])|];
      b.Keys == (set x | x in next) && forall k :: k in b ==> b[k] == |groups[k]|
  {
    assert (set x | x in next) == (set x | x in pre) + {c};
  }

  // ------------------------------------------------------------- properties

  /** The first `TOP_N_PROXIES` of a sorted category are its fastest: as many
      as the category has, up to 15, taken from it, in latency order, none
      slower than any item left out. */
  lemma TakeFastest(g: seq<LiveItem>)
    ensures var r := SortByLatency(g); var t := Take(r, TopN);
      && |t| == (if |g| < TopN then |g| else TopN)
      && multiset(t) <= multiset(g)
      && SortedByLatency(t)
      && forall i, j :: 0 <= i < |t| <= j < |r| ==> t[i].latency <= r[j].latency
  {
    var r := SortByLatency(g);
    SortSorted(g);
    SortPermutes(g);
    SortedPrefix(r, TopN);
  }

  /** The first `n` items of a sorted list are sorted, part of it, and no
      slower than any item after them. */
  lemma SortedPrefix(r: seq<LiveItem>, n: nat)
    requires SortedByLatency(r)
    ensures var t := Take(r, n);
      && multiset(t) <= multiset(r)
      && SortedByLatency(t)
      && forall i, j :: 0 <= i < |t| <= j < |r| ==> t[i].latency <= r[j].latency
  {
    var t := Take(r, n);
    assert r == t + r[|t|..];
    assert multiset(r) == multiset(t) + multiset(r[|t|..]);
  }

  /** Every per-category file lists its category's items sorted by latency:
      a stable permutation of the group. */
  lemma {:induction false} FilesSorted(groups: map<Scheme, seq<LiveItem>>, cats: seq<Scheme>)
    requires forall c :: c in cats ==> c in groups
    ensures var f := FilesOf(groups, cats); forall i :: 0 <= i < |f| ==>
      && f[i].0 == cats[i] && SortedByLatency(f[i].1) && multiset(f[i].1) == multiset(groups[cats[i]])
      && forall l :: WithLatency(f[i].1, l) == WithLatency(groups[cats[i]], l)
  {
    if cats != [] {
      var n := |cats| - 1;
      FilesSorted(groups, cats[..n]);
      var f0, f := FilesOf(groups, cats[..n]), FilesOf(groups, cats);
      forall i | 0 <= i < |f|
        ensures && f[i].0 == cats[i] && SortedByLatency(f[i].1) && multiset(f[i].1) == multiset(groups[cats[i]])
                && forall l :: WithLatency(f[i].1, l) == WithLatency(groups[cats[i]], l) {
        if i < n {
          assert f[i] == f0[i] && cats[..n][i] == cats[i];
        } else {
          SortSorted(groups[cats[n]]);
          SortPermutes(groups[cats[n]]);
          forall l ensures WithLatency(f[i].1, l) == WithLatency(groups[cats[i]], l) {
            SortStable(groups[cats[n]], l);
          }
        }
      }
    }
  }

  /** The fast list holds, in total, at most `TOP_N_PROXIES` items for each
      category listed, each taken from one of the categories. */
  lemma {:induction false} TopFromGroups(groups: map<Scheme, seq<LiveItem>>, cats: seq<Scheme>)
    requires forall c :: c in cats ==> c in groups
    ensures |TopOf(groups, cats)| <= TopN * |cats|
    ensures forall x :: x in TopOf(groups, cats) ==> exists c :: c in cats && x in groups[c]
  {
    if cats != [] {
      var n := |cats| - 1;
      TopFromGroups(groups, cats[..n]);
      var c := cats[n];
      var t := Take(SortByLatency(groups[c]), TopN);
      TakeFastest(groups[c]);
      forall x | x in TopOf(groups, cats) ensures exists c' :: c' in cats && x in groups[c'] {
        if x in TopOf(groups, cats[..n]) {
          var c' :| c' in cats[..n] && x in groups[c'];
          assert c' in cats;
        } else {
          assert x in t;
          assert x in multiset(groups[c]);
        }
      }
    }
  }

  /** The sum over `cats` of min(15, size of the category). */
  function TopCount(groups: map<Scheme, seq<LiveItem>>, cats: seq<Scheme>): nat
    requires forall c :: c in cats ==> c in groups
  {
    if cats == [] then 0
    else
      var n := |cats| - 1;
      TopCount(groups, cats[..n]) + (if |groups[cats[n]]| < TopN then |groups[cats[n]]| else TopN)
  }

  /** The fast list holds exactly min(15, size) items of each category. */
  lemma {:induction false} TopLength(groups: map<Scheme, seq<LiveItem>>, cats: seq<Scheme>)
    requires forall c :: c in cats ==> c in groups
    ensures |TopOf(groups, cats)| == TopCount(groups, cats)
  {
    if cats != [] {
      TopLength(groups, cats[..|cats| - 1]);
    }
  }

  /** When the groups come from the categorising loop, every item of the fast
      list is one of the items, of the category it was listed under. */
  lemma TopFromItems(items: seq<LiveItem>, groups: map<Scheme, seq<LiveItem>>)
    requires Grouped(groups, items)
    ensures forall x :: x in TopOf(groups, Present(groups)) ==> x in items && DetectType(x.config).Some?
    ensures |TopOf(groups, Present(groups))| <= TopN * |Present(groups)|
  {
    TopFromGroups(groups, Present(groups));
    forall x | x in TopOf(groups, Present(groups)) ensures x in items && DetectType(x.config).Some? {
      var c :| c in Present(groups) && x in groups[c];
      assert groups[c] == Filter(OfKind(c), items);
      assert OfKind(c)(x);
    }
  }

  /** `"\n".join(config_list)`. */
  function FileText(items: seq<LiveItem>): string
  {
    PyText.Join(seq(|items|, i requires 0 <= i < |items| => items[i].config), '\n')
  }

  /** The base64 variant of a file: `safe_base64_encode(text.encode('utf-8'))`. */
  function FileBase64(encode: string -> seq<byte>, items: seq<LiveItem>): string
  {
    Base64.SafeEncode(encode(FileText(items)))
  }

  /** The base64 variant decodes back to the UTF-8 bytes of the plain file,
      and it carries no padding. */
  lemma Base64FileDecodes(encode: string -> seq<byte>, items: seq<LiveItem>)
    ensures Base64.SafeDecode(FileBase64(encode, items)) == Some(encode(FileText(items)))
    ensures var b := FileBase64(encode, items); b == [] || b[|b| - 1] != '='
  {
    var b := encode(FileText(items));
    assert FileBase64(encode, items) == Base64.SafeEncode(b);
    Base64.RoundTrip(b);
  }
}
