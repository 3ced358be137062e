/** The composite cursor key of coverage_store.py: four components joined by the ASCII Unit Separator,
    against tuple order on the components. */
module CoverageKey {
  import TextOrder
  import opened Tokens

  const SEPARATOR := '\U{1F}'

  /** (path, http_method, identity_label, check_id): the part of the primary key the asset does not fix. */
  datatype RowKey = RowKey(path: string, httpMethod: string, identityLabel: string, checkId: string)

  function Components(k: RowKey): (parts: seq<string>)
    ensures |parts| == 4
  {
    [k.path, k.httpMethod, k.identityLabel, k.checkId]
  }

  lemma ComponentsInjective(a: RowKey, b: RowKey)
    ensures Components(a) == Components(b) <==> a == b
  {
    var x, y := Components(a), Components(b);
    assert a == RowKey(x[0], x[1], x[2], x[3]) && b == RowKey(y[0], y[1], y[2], y[3]);
  }

  /** `coverage_cursor_key`. */
  function Joined(k: RowKey): string {
    Join(Components(k), SEPARATOR)
  }

  /** Lexicographic order on tuples of the same length: the SQL ORDER BY. */
  predicate TupleLess(a: seq<string>, b: seq<string>)
    requires |a| == |b|
  {
    if |a| == 0 then false
    else if a[0] != b[0] then TextOrder.Less(a[0], b[0])
    else TupleLess(a[1..], b[1..])
  }

  /** The joined text, written out. */
  lemma JoinedText(k: RowKey)
    ensures Joined(k) == k.path + "\U{1F}" + (k.httpMethod + "\U{1F}" + (k.identityLabel + "\U{1F}" + k.checkId))
  {
    assert Components(k) == [k.path] + ([k.httpMethod] + ([k.identityLabel] + [k.checkId]));
    JoinStep(k.identityLabel, [k.checkId], SEPARATOR);
    JoinStep(k.httpMethod, [k.identityLabel] + [k.checkId], SEPARATOR);
    JoinStep(k.path, [k.httpMethod] + ([k.identityLabel] + [k.checkId]), SEPARATOR);
    assert Join([k.checkId], SEPARATOR) == k.checkId;
    assert "\U{1F}" == [SEPARATOR];
  }

  lemma TupleStep(x: string, y: string, xs: seq<string>, ys: seq<string>)
    requires |xs| == |ys|
    ensures TupleLess([x] + xs, [y] + ys) <==> TextOrder.Less(x, y) || (x == y && TupleLess(xs, ys))
  {
    assert ([x] + xs)[1..] == xs && ([y] + ys)[1..] == ys;
    TextOrder.Irreflexive(x);
  }

  /** Tuple order, column by column. */
  lemma ColumnOrder(a: RowKey, b: RowKey)
    ensures TupleLess(Components(a), Components(b))
       <==> || TextOrder.Less(a.path, b.path)
            || (a.path == b.path && TextOrder.Less(a.httpMethod, b.httpMethod))
            || (a.path == b.path && a.httpMethod == b.httpMethod && TextOrder.Less(a.identityLabel, b.identityLabel))
            || (a.path == b.path && a.httpMethod == b.httpMethod && a.identityLabel == b.identityLabel && TextOrder.Less(a.checkId, b.checkId))
  {
    assert Components(a) == [a.path] + ([a.httpMethod] + ([a.identityLabel] + ([a.checkId] + [])));
    assert Components(b) == [b.path] + ([b.httpMethod] + ([b.identityLabel] + ([b.checkId] + [])));
    TupleStep(a.checkId, b.checkId, [], []);
    TupleStep(a.identityLabel, b.identityLabel, [a.checkId] + [], [b.checkId] + []);
    TupleStep(a.httpMethod, b.httpMethod, [a.identityLabel] + ([a.checkId] + []), [b.identityLabel] + ([b.checkId] + []));
    TupleStep(a.path, b.path, [a.httpMethod] + ([a.identityLabel] + ([a.checkId] + [])), [b.httpMethod] + ([b.identityLabel] + ([b.checkId] + [])));
  }

  // ---- Separator-free components: the joined key is injective ----

  ghost predicate SeparatorFree(parts: seq<string>) {
    forall i :: 0 <= i < |parts| ==> SEPARATOR !in parts[i]
  }

  /** Text up to a separator is found again when the text itself has none. */
  lemma HeadsAgree(a: string, b: string, x: string, y: string)
    requires SEPARATOR !in a && SEPARATOR !in b
    requires a + [SEPARATOR] + x == b + [SEPARATOR] + y
    ensures a == b && x == y
  {
    var s, t := a + [SEPARATOR] + x, b + [SEPARATOR] + y;
    assert s[|a|] == SEPARATOR && t[|b|] == SEPARATOR;
    assert forall i :: 0 <= i < |a| ==> s[i] == a[i] && a[i] in a;
    assert forall i :: 0 <= i < |b| ==> t[i] == b[i] && b[i] in b;
    assert |a| == |b|;
    assert a == s[..|a|] && b == t[..|b|] && x == s[|a| + 1..] && y == t[|b| + 1..];
  }

  lemma {:induction false} JoinInjective(a: seq<string>, b: seq<string>)
    requires |a| == |b| > 0 && SeparatorFree(a) && SeparatorFree(b) && Join(a, SEPARATOR) == Join(b, SEPARATOR)
    ensures a == b
    decreases |a|
  {
    if |a| > 1 {
      HeadsAgree(a[0], b[0], Join(a[1..], SEPARATOR), Join(b[1..], SEPARATOR));
      JoinInjective(a[1..], b[1..]);
      assert a == [a[0]] + a[1..] && b == [b[0]] + b[1..];
    } else {
      assert a == [a[0]] && b == [b[0]];
    }
  }

  // ---- Exactly when the two orders agree ----

  predicate ShortPrefix(a: string, b: string) {
    a < b
  }

  lemma ShortPrefixTail(a: string, b: string)
    requires |a| > 0 && |b| > 0 && a[0] == b[0]
    ensures ShortPrefix(a, b) <==> ShortPrefix(a[1..], b[1..])
  {
    assert a == [a[0]] + a[1..] && b == [b[0]] + b[1..];
  }

  /** Joining swaps the two keys: at the first component where they differ, which is not the last one,
      one component is a proper prefix of the other, and the longer one goes on with a character below
      the separator. */
  predicate Swapped(a: seq<string>, b: seq<string>)
    requires |a| == |b|
  {
    if |a| <= 1 then false
    else if a[0] == b[0] then Swapped(a[1..], b[1..])
    else if ShortPrefix(a[0], b[0]) then b[0][|a[0]|] < SEPARATOR
    else ShortPrefix(b[0], a[0]) && a[0][|b[0]|] < SEPARATOR
  }

  lemma {:induction false} CommonPrefix(p: string, x: string, y: string)
    ensures TextOrder.Less(p + x, p + y) <==> TextOrder.Less(x, y)
  {
    if |p| == 0 {
      assert p + x == x && p + y == y;
    } else {
      assert (p + x)[1..] == p[1..] + x && (p + y)[1..] == p[1..] + y;
      CommonPrefix(p[1..], x, y);
    }
  }

  /** Two texts that part inside both of them compare as they do before anything is appended. */
  lemma {:induction false} PartInside(a: string, b: string, x: string, y: string)
    requires a != b && !ShortPrefix(a, b) && !ShortPrefix(b, a)
    ensures TextOrder.Less(a + x, b + y) <==> TextOrder.Less(a, b)
  {
    if |a| > 0 && |b| > 0 && a[0] == b[0] {
      assert a == [a[0]] + a[1..] && b == [b[0]] + b[1..];
      ShortPrefixTail(a, b);
      ShortPrefixTail(b, a);
      assert (a + x)[1..] == a[1..] + x && (b + y)[1..] == b[1..] + y;
      PartInside(a[1..], b[1..], x, y);
    }
  }

  /** A proper prefix is the smaller text, but with the separator appended it is smaller only if the
      longer text goes on above the separator. */
  lemma PrefixBeforeSeparator(a: string, b: string, x: string, y: string)
    requires ShortPrefix(a, b) && b[|a|] != SEPARATOR
    ensures TextOrder.Less(a, b) && !TextOrder.Less(b, a)
    ensures TextOrder.Less(a + [SEPARATOR] + x, b + y) <==> SEPARATOR < b[|a|]
    ensures TextOrder.Less(b + y, a + [SEPARATOR] + x) <==> b[|a|] < SEPARATOR
  {
    var tail := b[|a|..];
    assert b == a + tail && a == a + [];
    CommonPrefix(a, [], tail);
    CommonPrefix(a, tail, []);
    assert a + [SEPARATOR] + x == a + ([SEPARATOR] + x) && b + y == a + (tail + y);
    CommonPrefix(a, [SEPARATOR] + x, tail + y);
    CommonPrefix(a, tail + y, [SEPARATOR] + x);
  }

  /** For separator-free keys, joined order and tuple order agree on two keys if and only if joining
      does not swap them. */
  lemma {:induction false} JoinedOrderExact(a: seq<string>, b: seq<string>)
    requires |a| == |b| > 0 && SeparatorFree(a) && SeparatorFree(b)
    ensures (TextOrder.Less(Join(a, SEPARATOR), Join(b, SEPARATOR)) <==> TupleLess(a, b)) <==> !Swapped(a, b)
    decreases |a|
  {
    if |a| == 1 {
      TextOrder.Irreflexive(a[0]);
    } else {
      var x, y := Join(a[1..], SEPARATOR), Join(b[1..], SEPARATOR);
      if a[0] == b[0] {
        CommonPrefix(a[0] + [SEPARATOR], x, y);
        JoinedOrderExact(a[1..], b[1..]);
      } else if ShortPrefix(a[0], b[0]) {
        assert b[0][|a[0]|] in b[0];
        assert b[0] + [SEPARATOR] + y == b[0] + ([SEPARATOR] + y);
        PrefixBeforeSeparator(a[0], b[0], x, [SEPARATOR] + y);
      } else if ShortPrefix(b[0], a[0]) {
        assert a[0][|b[0]|] in a[0];
        assert a[0] + [SEPARATOR] + x == a[0] + ([SEPARATOR] + x);
        PrefixBeforeSeparator(b[0], a[0], y, [SEPARATOR] + x);
      } else {
        assert a[0] + [SEPARATOR] + x == a[0] + ([SEPARATOR] + x);
        assert b[0] + [SEPARATOR] + y == b[0] + ([SEPARATOR] + y);
        PartInside(a[0], b[0], [SEPARATOR] + x, [SEPARATOR] + y);
      }
    }
  }

  // ---- Components above the separator ----

  ghost predicate Printable(parts: seq<string>) {
    forall i, j :: 0 <= i < |parts| && 0 <= j < |parts[i]| ==> SEPARATOR < parts[i][j]
  }

  lemma {:induction false} PrintableNeverSwapped(a: seq<string>, b: seq<string>)
    requires |a| == |b| && Printable(a) && Printable(b)
    ensures SeparatorFree(a) && SeparatorFree(b) && !Swapped(a, b)
    decreases |a|
  {
    if |a| > 1 && a[0] == b[0] {
      assert forall i :: 0 <= i < |a[1..]| ==> a[1..][i] == a[i + 1] && b[1..][i] == b[i + 1];
      PrintableNeverSwapped(a[1..], b[1..]);
    }
  }

  /** When every component uses only characters above U+001F, code-point order on the joined key is
      tuple order on the components, and the joined key is injective. */
  lemma JoinedOrderIsTupleOrder(a: RowKey, b: RowKey)
    requires Printable(Components(a)) && Printable(Components(b))
    ensures TextOrder.Less(Joined(a), Joined(b)) <==> TupleLess(Components(a), Components(b))
    ensures Joined(a) == Joined(b) <==> a == b
  {
    var x, y := Components(a), Components(b);
    PrintableNeverSwapped(x, y);
    JoinedOrderExact(x, y);
    if Joined(a) == Joined(b) {
      JoinInjective(x, y);
      ComponentsInjective(a, b);
    }
  }

  /** Tuple order is a strict total order. */
  lemma {:induction false} TupleOrderFacts(a: seq<string>, b: seq<string>, c: seq<string>)
    requires |a| == |b| == |c|
    ensures !TupleLess(a, a)
    ensures TupleLess(a, b) && TupleLess(b, c) ==> TupleLess(a, c)
    ensures a == b || TupleLess(a, b) || TupleLess(b, a)
    decreases |a|
  {
    if |a| > 0 {
      TupleOrderFacts(a[1..], b[1..], c[1..]);
      TextOrder.Trichotomy(a[0], b[0]);
      assert a == [a[0]] + a[1..] && b == [b[0]] + b[1..];
      if TextOrder.Less(a[0], b[0]) && TextOrder.Less(b[0], c[0]) {
        TextOrder.Transitive(a[0], b[0], c[0]);
        TextOrder.Irreflexive(a[0]);
      }
    }
  }
}
