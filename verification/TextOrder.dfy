/** Code-point order on text: the order of Python's `str` comparison, of SQLite's
    BINARY collation and of a C-collated PostgreSQL text column. */
module TextOrder {

  predicate Less(a: string, b: string) {
    if |b| == 0 then false
    else if |a| == 0 then true
    else if a[0] != b[0] then a[0] < b[0]
    else Less(a[1..], b[1..])
  }

  lemma {:induction false} Irreflexive(a: string)
    ensures !Less(a, a)
  {
    if |a| > 0 {
      Irreflexive(a[1..]);
    }
  }

  lemma {:induction false} Transitive(a: string, b: string, c: string)
    requires Less(a, b) && Less(b, c)
    ensures Less(a, c)
  {
    if |a| > 0 && a[0] == b[0] == c[0] {
      Transitive(a[1..], b[1..], c[1..]);
    }
  }

  lemma {:induction false} Trichotomy(a: string, b: string)
    ensures a == b || Less(a, b) || Less(b, a)
  {
    if |a| > 0 && |b| > 0 && a[0] == b[0] {
      Trichotomy(a[1..], b[1..]);
      assert a == [a[0]] + a[1..] && b == [b[0]] + b[1..];
    }
  }

  /** The texts agree up to a position where the first has the smaller character. */
  ghost predicate SmallerAt(a: string, b: string, i: nat) {
    i < |a| && i < |b| && a[..i] == b[..i] && a[i] < b[i]
  }

  lemma SmallerHead(a: string, b: string, i: nat)
    requires SmallerAt(a, b, i)
    ensures i == 0 || a[0] == b[0]
  {
    if i > 0 {
      assert a[..i][0] == a[0] && b[..i][0] == b[0];
    }
  }

  lemma SmallerTail(a: string, b: string, i: nat)
    requires |a| > 0 && |b| > 0 && a[0] == b[0]
    ensures SmallerAt(a[1..], b[1..], i) <==> SmallerAt(a, b, i + 1)
  {
    if i < |a| - 1 && i < |b| - 1 {
      assert a[..i + 1] == [a[0]] + a[1..][..i] && b[..i + 1] == [b[0]] + b[1..][..i];
      assert a[1..][..i] == a[..i + 1][1..] && b[1..][..i] == b[..i + 1][1..];
    }
  }

  /** The order, said without recursion: a proper prefix comes first, and otherwise the first difference
      decides, by code point. */
  lemma {:induction false} LessExactly(a: string, b: string)
    ensures Less(a, b) <==> (|a| < |b| && a == b[..|a|]) || exists i: nat :: SmallerAt(a, b, i)
  {
    if |a| > 0 && |b| > 0 {
      if a[0] == b[0] {
        LessExactly(a[1..], b[1..]);
        forall i: nat ensures SmallerAt(a[1..], b[1..], i) <==> SmallerAt(a, b, i + 1) {
          SmallerTail(a, b, i);
        }
        PrefixTail(a, b);
        if exists i: nat :: SmallerAt(a, b, i) {
          var i: nat :| SmallerAt(a, b, i);
          assert i > 0;
          assert SmallerAt(a[1..], b[1..], i - 1);
        }
        if exists i: nat :: SmallerAt(a[1..], b[1..], i) {
          var i: nat :| SmallerAt(a[1..], b[1..], i);
          assert SmallerAt(a, b, i + 1);
        }
      } else {
        assert SmallerAt(a, b, 0) <==> a[0] < b[0];
        forall i: nat ensures SmallerAt(a, b, i) ==> i == 0 {
          if SmallerAt(a, b, i) {
            SmallerHead(a, b, i);
          }
        }
      }
    }
  }

  lemma PrefixTail(a: string, b: string)
    requires |a| > 0 && |b| > 0 && a[0] == b[0]
    ensures (|a| < |b| && a == b[..|a|]) <==> (|a[1..]| < |b[1..]| && a[1..] == b[1..][..|a[1..]|])
  {
    if |a| < |b| {
      assert a == [a[0]] + a[1..] && b[..|a|] == [b[0]] + b[1..][..|a| - 1];
      assert b[..|a|][1..] == b[1..][..|a| - 1];
    }
  }
}
