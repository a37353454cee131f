/** The de-duplication of `applyFiboOntology` (services/geminiService.ts): a `Map` from a
    key string to the first item seen with that key, read back in insertion order. */
module Deduplication {
  import opened Text
  import opened FiboTypes

  /** The keys of the items. */
  function KeysOf<T>(items: seq<T>, key: T -> string): set<string> {
    set i | 0 <= i < |items| :: key(items[i])
  }

  /** No two items share a key. */
  predicate DistinctKeys<T>(items: seq<T>, key: T -> string) {
    forall i, j :: 0 <= i < j < |items| ==> key(items[i]) != key(items[j])
  }

  /** One more item adds its key. */
  lemma KeysOfSnoc<T>(items: seq<T>, x: T, key: T -> string)
    ensures KeysOf(items + [x], key) == KeysOf(items, key) + {key(x)}
  {
    var s := items + [x];
    assert key(s[|items|]) == key(x);
    forall k | k in KeysOf(items, key) ensures k in KeysOf(s, key) {
      var i :| 0 <= i < |items| && key(items[i]) == k;
      assert s[i] == items[i];
    }
  }

  /** The items left after scanning `items` in order and keeping an item only when no item
      kept before has its key. The result has no repeated key and every key of the input. */
  function Dedup<T>(items: seq<T>, key: T -> string): (r: seq<T>)
    ensures DistinctKeys(r, key)
    ensures KeysOf(r, key) == KeysOf(items, key)
  {
    if items == [] then []
    else
      var init, x := items[..|items| - 1], items[|items| - 1];
      var r0 := Dedup(init, key);
      KeysOfSnoc(init, x, key);
      assert init + [x] == items;
      if key(x) in KeysOf(r0, key) then r0
      else
        KeysOfSnoc(r0, x, key);
        r0 + [x]
  }

  /** `items[i]` is the first item with its key. */
  predicate FirstOfKey<T>(items: seq<T>, key: T -> string, i: nat)
    requires i < |items|
  {
    forall j :: 0 <= j < i ==> key(items[j]) != key(items[i])
  }

  /** The reference definition: the items among the first `n` that come first for their key,
      in input order. */
  function Firsts<T>(items: seq<T>, key: T -> string, n: nat): seq<T>
    requires n <= |items|
  {
    if n == 0 then []
    else Firsts(items, key, n - 1) + (if FirstOfKey(items, key, n - 1) then [items[n - 1]] else [])
  }

  /** De-duplication keeps exactly the first item for each key, in input order: the output is
      the subsequence of first occurrences. */
  lemma {:induction false} DedupKeepsFirsts<T>(items: seq<T>, key: T -> string, n: nat)
    requires n <= |items|
    ensures Dedup(items[..n], key) == Firsts(items, key, n)
  {
    if n > 0 {
      DedupKeepsFirsts(items, key, n - 1);
      var pre := items[..n];
      assert pre[..n - 1] == items[..n - 1];
      var r0 := Dedup(items[..n - 1], key);
      var x := items[n - 1];
      assert key(x) in KeysOf(r0, key) <==> !FirstOfKey(items, key, n - 1) by {
        assert KeysOf(r0, key) == KeysOf(items[..n - 1], key);
        if key(x) in KeysOf(items[..n - 1], key) {
          var j :| 0 <= j < n - 1 && key(items[..n - 1][j]) == key(x);
          assert key(items[j]) == key(items[n - 1]);
        }
        if !FirstOfKey(items, key, n - 1) {
          var j :| 0 <= j < n - 1 && key(items[j]) == key(items[n - 1]);
          assert items[..n - 1][j] == items[j];
        }
      }
    }
  }

  /** The whole input: `Dedup(items)` is the list of first occurrences. */
  lemma DedupIsFirsts<T>(items: seq<T>, key: T -> string)
    ensures Dedup(items, key) == Firsts(items, key, |items|)
  {
    DedupKeepsFirsts(items, key, |items|);
    assert items[..|items|] == items;
  }

  /** A list with no repeated key is left as it is. */
  lemma {:induction false} DedupDistinct<T>(items: seq<T>, key: T -> string)
    requires DistinctKeys(items, key)
    ensures Dedup(items, key) == items
  {
    if items != [] {
      var init, x := items[..|items| - 1], items[|items| - 1];
      DedupDistinct(init, key);
      forall j | 0 <= j < |init| ensures key(init[j]) != key(x) {
        assert init[j] == items[j];
      }
      assert init + [x] == items;
    }
  }

  /** De-duplicating twice is de-duplicating once. */
  lemma DedupIdempotent<T>(items: seq<T>, key: T -> string)
    ensures Dedup(Dedup(items, key), key) == Dedup(items, key)
  {
    DedupDistinct(Dedup(items, key), key);
  }

  /** `deduplicateFiboItems` and `deduplicateFinancialDataItems` (services/geminiService.ts):
      the `Map` is modelled by the list of its keys in insertion order and the finite map
      from each key to its value; `Array.from(map.values())` reads the values in that order. */
  method DeduplicateBy<T>(items: seq<T>, key: T -> string) returns (r: seq<T>)
    ensures r == Dedup(items, key)
  {
    var order: seq<string> := [];
    var values: map<string, T> := map[];
    ghost var kept: seq<T> := [];
    for k := 0 to |items|
      invariant kept == Dedup(items[..k], key)
      invariant |order| == |kept|
      invariant forall i :: 0 <= i < |order| ==> order[i] == key(kept[i])
      invariant values.Keys == KeysOf(kept, key)
      invariant forall i :: 0 <= i < |order| ==> values[order[i]] == kept[i]
    {
      var item := items[k];
      var itemKey := key(item);
      assert items[..k + 1][..k] == items[..k];
      assert items[..k + 1][k] == item;
      if itemKey !in values {
        KeysOfSnoc(kept, item, key);
        order := order + [itemKey];
        values := values[itemKey := item];
        kept := kept + [item];
      }
    }
    assert items[..|items|] == items;
    r := ValuesInOrder(order, values);
  }

  /** `Array.from(map.values())`: the value of every key, in the order the keys were first
      inserted. */
  method ValuesInOrder<T>(order: seq<string>, values: map<string, T>) returns (r: seq<T>)
    requires forall i :: 0 <= i < |order| ==> order[i] in values
    ensures |r| == |order|
    ensures forall i :: 0 <= i < |order| ==> r[i] == values[order[i]]
  {
    r := [];
    for i := 0 to |order|
      invariant |r| == i
      invariant forall j :: 0 <= j < i ==> r[j] == values[order[j]]
    {
      r := r + [values[order[i]]];
    }
  }

  /** No ASCII upper-case letter. */
  predicate Caseless(s: string) {
    forall i :: 0 <= i < |s| ==> !('A' <= s[i] <= 'Z')
  }

  /** The key text of one field: `s.toLowerCase().trim()`. It has no upper-case letter and no
      whitespace at either end. */
  function Normalize(s: string): (r: string)
    ensures Caseless(r)
    ensures |r| > 0 ==> !IsJsWhitespace(r[0]) && !IsJsWhitespace(r[|r| - 1])
  {
    var l := Lower(s);
    assert Caseless(l);
    Trim(l)
  }

  lemma CaselessAppend(a: string, b: string)
    requires Caseless(a) && Caseless(b)
    ensures Caseless(a + b)
  {
  }

  /** The key of a concept, entity or relationship: name, FIBO class and context, each
      normalised, joined with `|`. Keys are case-free. */
  function FiboKey(item: FiboItem): (k: string)
    ensures Caseless(k)
  {
    var n, c, x := Normalize(item.name), Normalize(item.fiboClass), Normalize(item.context);
    CaselessAppend(n, "|");
    CaselessAppend(n + "|", c);
    CaselessAppend(n + "|" + c, "|");
    CaselessAppend(n + "|" + c + "|", x);
    n + "|" + c + "|" + x
  }

  /** The key of a financial data point: name, value, ontology class and context. Keys are
      case-free. */
  function FinancialKey(item: FinancialDataItem): (k: string)
    ensures Caseless(k)
  {
    var n, v := Normalize(item.name), Normalize(item.value);
    var c, x := Normalize(item.ontologyClass), Normalize(item.context);
    CaselessAppend(n, "|");
    CaselessAppend(n + "|", v);
    CaselessAppend(n + "|" + v, "|");
    CaselessAppend(n + "|" + v + "|", c);
    CaselessAppend(n + "|" + v + "|" + c, "|");
    CaselessAppend(n + "|" + v + "|" + c + "|", x);
    n + "|" + v + "|" + c + "|" + x
  }

  /** Leading whitespace is dropped by `trimStart` whatever follows it. */
  lemma {:induction false} TrimStartPadded(pre: string, u: string)
    requires forall i :: 0 <= i < |pre| ==> IsJsWhitespace(pre[i])
    ensures TrimStart(pre + u) == TrimStart(u)
    decreases |pre|
  {
    if pre != [] {
      assert (pre + u)[0] == pre[0];
      assert (pre + u)[1..] == pre[1..] + u;
      assert TrimStart(pre + u) == TrimStart(pre[1..] + u);
      TrimStartPadded(pre[1..], u);
    } else {
      assert pre + u == u;
    }
  }

  /** Trailing whitespace is dropped by `trimEnd` whatever precedes it. */
  lemma {:induction false} TrimEndPadded(u: string, post: string)
    requires forall i :: 0 <= i < |post| ==> IsJsWhitespace(post[i])
    ensures TrimEnd(u + post) == TrimEnd(u)
    decreases |post|
  {
    if post != [] {
      var n := |post| - 1;
      assert (u + post)[|u + post| - 1] == post[n];
      assert (u + post)[..|u + post| - 1] == u + post[..n];
      assert TrimEnd(u + post) == TrimEnd(u + post[..n]);
      TrimEndPadded(u, post[..n]);
    } else {
      assert u + post == u;
    }
  }

  /** `trimStart` of a string that is not all whitespace stops inside it. */
  lemma {:induction false} TrimStartAppend(s: string, t: string)
    requires exists i :: 0 <= i < |s| && !IsJsWhitespace(s[i])
    ensures TrimStart(s + t) == TrimStart(s) + t
    decreases |s|
  {
    if IsJsWhitespace(s[0]) {
      assert (s + t)[1..] == s[1..] + t;
      var i :| 0 <= i < |s| && !IsJsWhitespace(s[i]);
      assert s[1..][i - 1] == s[i];
      TrimStartAppend(s[1..], t);
    }
  }

  /** Lower-casing leaves whitespace alone. */
  lemma LowerWhitespace(w: string)
    requires forall i :: 0 <= i < |w| ==> IsJsWhitespace(w[i])
    ensures Lower(w) == w
  {
  }

  /** Lower-casing works character by character. */
  lemma LowerAppend(a: string, b: string)
    ensures Lower(a + b) == Lower(a) + Lower(b)
  {
  }

  /** Whitespace around a string does not change its trimmed form. */
  lemma TrimPadded(pre: string, u: string, post: string)
    requires forall i :: 0 <= i < |pre| ==> IsJsWhitespace(pre[i])
    requires forall i :: 0 <= i < |post| ==> IsJsWhitespace(post[i])
    ensures Trim(pre + u + post) == Trim(u)
  {
    assert pre + u + post == pre + (u + post);
    TrimStartPadded(pre, u + post);
    if forall i :: 0 <= i < |u| ==> IsJsWhitespace(u[i]) {
      var w := u + post;
      forall i | 0 <= i < |w| ensures IsJsWhitespace(w[i]) {
        if i < |u| { assert w[i] == u[i]; } else { assert w[i] == post[i - |u|]; }
      }
    } else {
      TrimStartAppend(u, post);
      TrimEndPadded(TrimStart(u), post);
    }
  }

  /** Whitespace around a field does not change its key text. */
  lemma NormalizePadded(pre: string, s: string, post: string)
    requires forall i :: 0 <= i < |pre| ==> IsJsWhitespace(pre[i])
    requires forall i :: 0 <= i < |post| ==> IsJsWhitespace(post[i])
    ensures Normalize(pre + s + post) == Normalize(s)
  {
    LowerAppend(pre + s, post);
    LowerAppend(pre, s);
    LowerWhitespace(pre);
    LowerWhitespace(post);
    TrimPadded(pre, Lower(s), post);
  }

  /** Lower-casing twice is lower-casing once. */
  lemma LowerTwice(s: string)
    ensures Lower(Lower(s)) == Lower(s)
  {
  }

  /** `y` is `x` up to ASCII case, with the whitespace `pre` before it and `post` after it. */
  predicate PaddedAlike(x: string, y: string, pre: string, post: string) {
    && (forall i :: 0 <= i < |pre| ==> IsJsWhitespace(pre[i]))
    && (forall i :: 0 <= i < |post| ==> IsJsWhitespace(post[i]))
    && Lower(y) == pre + Lower(x) + post
  }

  /** Fields that agree up to case and surrounding whitespace have the same key text. */
  lemma NormalizeAlike(x: string, y: string, pre: string, post: string)
    requires PaddedAlike(x, y, pre, post)
    ensures Normalize(y) == Normalize(x)
  {
    TrimPadded(pre, Lower(x), post);
  }

  /** Items whose name, class and context each agree up to ASCII case and surrounding
      whitespace share a key, whatever their descriptions. */
  lemma FiboKeyIgnoresCaseAndPadding(a: FiboItem, b: FiboItem, pn: string, qn: string,
                                     pc: string, qc: string, px: string, qx: string)
    requires PaddedAlike(a.name, b.name, pn, qn)
    requires PaddedAlike(a.fiboClass, b.fiboClass, pc, qc)
    requires PaddedAlike(a.context, b.context, px, qx)
    ensures FiboKey(a) == FiboKey(b)
  {
    NormalizeAlike(a.name, b.name, pn, qn);
    NormalizeAlike(a.fiboClass, b.fiboClass, pc, qc);
    NormalizeAlike(a.context, b.context, px, qx);
  }

  /** Financial data points whose name, value, ontology class and context each agree up to
      ASCII case and surrounding whitespace share a key, whatever their descriptions. */
  lemma FinancialKeyIgnoresCaseAndPadding(a: FinancialDataItem, b: FinancialDataItem,
                                          pn: string, qn: string, pv: string, qv: string,
                                          pc: string, qc: string, px: string, qx: string)
    requires PaddedAlike(a.name, b.name, pn, qn)
    requires PaddedAlike(a.value, b.value, pv, qv)
    requires PaddedAlike(a.ontologyClass, b.ontologyClass, pc, qc)
    requires PaddedAlike(a.context, b.context, px, qx)
    ensures FinancialKey(a) == FinancialKey(b)
  {
    NormalizeAlike(a.name, b.name, pn, qn);
    NormalizeAlike(a.value, b.value, pv, qv);
    NormalizeAlike(a.ontologyClass, b.ontologyClass, pc, qc);
    NormalizeAlike(a.context, b.context, px, qx);
  }

  /** A field with no upper-case letter and no whitespace at either end. */
  predicate Plain(s: string) {
    && |s| > 0 && !IsJsWhitespace(s[0]) && !IsJsWhitespace(s[|s| - 1])
    && forall i :: 0 <= i < |s| ==> !('A' <= s[i] <= 'Z')
  }

  /** A plain field is its own key text. */
  lemma NormalizePlain(s: string)
    requires Plain(s)
    ensures Normalize(s) == s
  {
    assert Lower(s) == s;
    assert TrimStart(s) == s;
    assert TrimEnd(s) == s;
  }

  /** Two plain fields glued with `|` make a plain field. */
  lemma PlainBar(p: string, q: string)
    requires Plain(p) && Plain(q)
    ensures Plain(p + "|" + q)
  {
    var s := p + "|" + q;
    assert s[0] == p[0] && s[|s| - 1] == q[|q| - 1];
    forall i | 0 <= i < |s| ensures !('A' <= s[i] <= 'Z') {
      if i < |p| { assert s[i] == p[i]; }
      else if i > |p| { assert s[i] == q[i - |p| - 1]; }
    }
  }

  /** Because the fields are glued with `|`, items whose fields differ can share a key: a
      name `p|q` with class `r`, and a name `p` with class `q|r`. The second is then dropped
      as a duplicate of the first. */
  lemma FiboKeyCollision(p: string, q: string, r: string, description: string, context: string)
    requires Plain(p) && Plain(q) && Plain(r)
    ensures var x, y := FiboItem(p + "|" + q, r, description, context), FiboItem(p, q + "|" + r, description, context);
            x.name != y.name && x.fiboClass != y.fiboClass && FiboKey(x) == FiboKey(y)
  {
    PlainFields(p, q, r);
    assert |p + "|" + q| > |p| && |q + "|" + r| > |r|;
    BarRegroup(p, q, r, Normalize(context));
  }

  /** The fields of the two colliding items are their own key texts. */
  lemma PlainFields(p: string, q: string, r: string)
    requires Plain(p) && Plain(q) && Plain(r)
    ensures Normalize(p + "|" + q) == p + "|" + q && Normalize(q + "|" + r) == q + "|" + r
    ensures Normalize(p) == p && Normalize(r) == r
  {
    PlainBar(p, q);
    NormalizePlain(p + "|" + q);
    PlainBar(q, r);
    NormalizePlain(q + "|" + r);
    NormalizePlain(p);
    NormalizePlain(r);
  }

  /** Where a `|` sits between `p`, `q` and `r` does not show in the glued text. */
  lemma BarRegroup(p: string, q: string, r: string, c: string)
    ensures (p + "|" + q) + "|" + r + "|" + c == p + "|" + (q + "|" + r) + "|" + c
  {
    assert p + "|" + q + "|" + r == p + "|" + (q + "|" + r);
  }
}
