/** Small shared vocabulary: an optional value (Go's nil slice versus a
    present one) and "is a subsequence of", used to state that a stage keeps
    the arrival order of the values it forwards. */
module Sequences {

  datatype Option<+T> = None | Some(value: T)

  /** a can be obtained from b by deleting elements; the order of what is
      kept is the order in b. */
  predicate IsSubseq(a: seq<int>, b: seq<int>)
    decreases |b|
  {
    a == [] || (b != [] && ((a[0] == b[0] && IsSubseq(a[1..], b[1..])) || IsSubseq(a, b[1..])))
  }

  lemma {:induction false} SubseqRefl(a: seq<int>)
    ensures IsSubseq(a, a)
    decreases |a|
  {
    if a != [] {
      SubseqRefl(a[1..]);
    }
  }

  lemma {:induction false} SubseqTrans(a: seq<int>, b: seq<int>, c: seq<int>)
    requires IsSubseq(a, b) && IsSubseq(b, c)
    ensures IsSubseq(a, c)
    decreases |c|
  {
    if a != [] {
      assert b != [] && c != [];
      if IsSubseq(b, c[1..]) {
        SubseqTrans(a, b, c[1..]);
      } else {
        assert b[0] == c[0] && IsSubseq(b[1..], c[1..]);
        if a[0] == b[0] && IsSubseq(a[1..], b[1..]) {
          SubseqTrans(a[1..], b[1..], c[1..]);
        } else {
          SubseqTrans(a, b[1..], c[1..]);
        }
      }
    }
  }

  /** Dropping elements from the front of b only: any suffix is a subsequence. */
  lemma {:induction false} SuffixIsSubseq(b: seq<int>, k: nat)
    requires k <= |b|
    ensures IsSubseq(b[k..], b)
    decreases k
  {
    if k == 0 {
      SubseqRefl(b);
    } else {
      SuffixIsSubseq(b[1..], k - 1);
      assert b[1..][k - 1..] == b[k..];
    }
  }

  /** A common prefix may be added on both sides. */
  lemma {:induction false} SubseqPrepend(p: seq<int>, a: seq<int>, b: seq<int>)
    requires IsSubseq(a, b)
    ensures IsSubseq(p + a, p + b)
    decreases |p|
  {
    if p != [] {
      SubseqPrepend(p[1..], a, b);
      assert (p + a)[1..] == p[1..] + a;
      assert (p + b)[1..] == p[1..] + b;
    } else {
      assert p + a == a && p + b == b;
    }
  }

  /** A common suffix may be added on both sides. */
  lemma {:induction false} SubseqAppend(a: seq<int>, b: seq<int>, s: seq<int>)
    requires IsSubseq(a, b)
    ensures IsSubseq(a + s, b + s)
    decreases |b|
  {
    if a == [] {
      SuffixIsSubseq(b + s, |b|);
      assert (b + s)[|b|..] == s && a + s == s;
    } else if a[0] == b[0] && IsSubseq(a[1..], b[1..]) {
      SubseqAppend(a[1..], b[1..], s);
      assert (a + s)[1..] == a[1..] + s;
      assert (b + s)[1..] == b[1..] + s;
    } else {
      SubseqAppend(a, b[1..], s);
      assert (b + s)[1..] == b[1..] + s;
    }
  }

  /** Regrouping a concatenation whose tail is known as one sequence. */
  lemma Regroup(w: seq<int>, a: seq<int>, b: seq<int>, c: seq<int>)
    requires a + b == c
    ensures (w + a) + b == w + c
  {
  }

  lemma AppendAssoc(a: seq<int>, b: seq<int>, c: seq<int>)
    ensures (a + b) + c == a + (b + c)
  {
  }

  /** If x fits into a window followed by later values, and the window is a
      suffix of held, then x fits into held followed by the same values. */
  lemma SubseqOfSuffix(x: seq<int>, window: seq<int>, held: seq<int>, later: seq<int>)
    requires |window| <= |held| && window == held[|held| - |window|..]
    requires IsSubseq(x, window + later)
    ensures IsSubseq(x, held + later)
  {
    SuffixIsSubseq(held, |held| - |window|);
    SubseqAppend(window, held, later);
    SubseqTrans(x, window + later, held + later);
  }

  /** A prefix w added in front of a subsequence embedding, regrouped. */
  lemma SubseqPrependGrouped(w: seq<int>, a: seq<int>, b: seq<int>, c: seq<int>)
    requires IsSubseq(a + b, c)
    ensures IsSubseq((w + a) + b, w + c)
  {
    SubseqPrepend(w, a + b, c);
    AppendAssoc(w, a, b);
  }

  lemma {:induction false} PrefixIsSubseq(a: seq<int>, b: seq<int>)
    ensures IsSubseq(a, a + b)
    decreases |a|
  {
    if a != [] {
      PrefixIsSubseq(a[1..], b);
      assert (a + b)[1..] == a[1..] + b;
    }
  }

  /** Everything in a subsequence occurs in the sequence. */
  lemma {:induction false} SubseqMembers(a: seq<int>, b: seq<int>, v: int)
    requires IsSubseq(a, b) && v in a
    ensures v in b
    decreases |b|
  {
    if a[0] == b[0] && IsSubseq(a[1..], b[1..]) {
      if v != a[0] {
        assert v in a[1..];
        SubseqMembers(a[1..], b[1..], v);
      }
    } else {
      SubseqMembers(a, b[1..], v);
    }
  }
}
