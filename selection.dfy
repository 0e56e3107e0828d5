/**
 * Row selection as the dashboard's table library performs it: keeping the
 * elements a boolean mask marks (boolean indexing, `df[mask]`) and dropping
 * repeated elements while keeping each first occurrence (`drop_duplicates`,
 * which is boolean indexing by "not a repeat of an earlier element").
 */
module Selection {

  /** No element occurs twice. */
  predicate Distinct<T(==)>(s: seq<T>) {
    forall i, j | 0 <= i < j < |s| :: s[i] != s[j]
  }

  /** The set of elements of `s`. */
  function Elements<T>(s: seq<T>): set<T> {
    set x | x in s
  }

  /** The elements of `s` whose flag in `keep` is set, in their original order. */
  function Mask<T>(s: seq<T>, keep: seq<bool>): (r: seq<T>)
    requires |keep| == |s|
    ensures |r| <= |s|
    ensures forall x | x in r :: x in s
    decreases |s|
  {
    if |s| == 0 then []
    else
      var n := |s| - 1;
      Mask(s[..n], keep[..n]) + (if keep[n] then [s[n]] else [])
  }

  /** An element survives the mask exactly when some position holding it is kept. */
  lemma {:induction false} MaskMember<T>(s: seq<T>, keep: seq<bool>, x: T)
    requires |keep| == |s|
    ensures x in Mask(s, keep) <==> exists i | 0 <= i < |s| :: keep[i] && s[i] == x
    decreases |s|
  {
    if |s| > 0 {
      var n := |s| - 1;
      MaskMember(s[..n], keep[..n], x);
      if exists i | 0 <= i < |s| :: keep[i] && s[i] == x {
        var i :| 0 <= i < |s| && keep[i] && s[i] == x;
        if i < n {
          assert keep[..n][i] && s[..n][i] == x;
        }
      }
    }
  }

  /** The mask keeps order: what it keeps of a prefix comes before what it keeps of the rest. */
  lemma {:induction false} MaskAppend<T>(a: seq<T>, ka: seq<bool>, b: seq<T>, kb: seq<bool>)
    requires |ka| == |a| && |kb| == |b|
    ensures Mask(a + b, ka + kb) == Mask(a, ka) + Mask(b, kb)
    decreases |b|
  {
    if |b| == 0 {
      assert a + b == a;
      assert ka + kb == ka;
    } else {
      var n := |b| - 1;
      assert (a + b)[..|a| + n] == a + b[..n];
      assert (ka + kb)[..|a| + n] == ka + kb[..n];
      MaskAppend(a, ka, b[..n], kb[..n]);
    }
  }

  /** A mask that keeps everything is the identity. */
  lemma {:induction false} MaskAll<T>(s: seq<T>, keep: seq<bool>)
    requires |keep| == |s|
    requires forall i | 0 <= i < |s| :: keep[i]
    ensures Mask(s, keep) == s
    decreases |s|
  {
    if |s| > 0 {
      var n := |s| - 1;
      MaskAll(s[..n], keep[..n]);
      assert s[..n] + [s[n]] == s;
    }
  }

  /** Selecting from a sequence without repeats gives a sequence without repeats. */
  lemma {:induction false} MaskDistinct<T>(s: seq<T>, keep: seq<bool>)
    requires |keep| == |s|
    requires Distinct(s)
    ensures Distinct(Mask(s, keep))
    decreases |s|
  {
    if |s| > 0 {
      var n := |s| - 1;
      assert Distinct(s[..n]);
      MaskDistinct(s[..n], keep[..n]);
      assert s[n] !in s[..n];
    }
  }

  /** The flags of `drop_duplicates(keep='first')`: position i is kept when s[i] does not occur before i. */
  function FirstOccurrences<T(==)>(s: seq<T>): (keep: seq<bool>)
    ensures |keep| == |s|
  {
    seq(|s|, i requires 0 <= i < |s| => s[i] !in s[..i])
  }

  /** `drop_duplicates()`: every element that repeats an earlier one is removed. */
  function DropDuplicates<T(==)>(s: seq<T>): seq<T> {
    Mask(s, FirstOccurrences(s))
  }

  /** Appending one element appends it to the result exactly when it is new. */
  lemma DropDuplicatesSnoc<T>(s: seq<T>, x: T)
    ensures DropDuplicates(s + [x]) == DropDuplicates(s) + (if x in s then [] else [x])
  {
    var t := s + [x];
    assert t[..|s|] == s;
    assert FirstOccurrences(t)[..|s|] == FirstOccurrences(s) by {
      forall i | 0 <= i < |s| ensures t[..i] == s[..i] { }
    }
  }

  /**
   * The result has no repeats, holds exactly the elements of the input, and
   * so has as many elements as the input has distinct values.
   */
  lemma {:induction false} DropDuplicatesSpec<T>(s: seq<T>)
    ensures Distinct(DropDuplicates(s))
    ensures Elements(DropDuplicates(s)) == Elements(s)
    ensures |DropDuplicates(s)| == |Elements(s)|
    decreases |s|
  {
    if |s| > 0 {
      var n := |s| - 1;
      var p, x := s[..n], s[n];
      assert s == p + [x];
      DropDuplicatesSpec(p);
      DropDuplicatesSnoc(p, x);
      assert Elements(s) == Elements(p) + {x};
      if x !in p {
        assert x !in Elements(DropDuplicates(p));
        assert Elements(DropDuplicates(p) + [x]) == Elements(DropDuplicates(p)) + {x};
      } else {
        assert x in Elements(p);
      }
    }
  }

  /** A sequence without repeats is left as it is. */
  lemma DropDuplicatesOfDistinct<T>(s: seq<T>)
    requires Distinct(s)
    ensures DropDuplicates(s) == s
  {
    forall i | 0 <= i < |s| ensures FirstOccurrences(s)[i] { }
    MaskAll(s, FirstOccurrences(s));
  }

  /** Dropping duplicates twice is the same as dropping them once. */
  lemma DropDuplicatesIdempotent<T>(s: seq<T>)
    ensures DropDuplicates(DropDuplicates(s)) == DropDuplicates(s)
  {
    DropDuplicatesSpec(s);
    DropDuplicatesOfDistinct(DropDuplicates(s));
  }

  /** The flags of the elements of `b` that occur neither in `a` nor earlier in `b`. */
  function NewAfter<T(==)>(a: seq<T>, b: seq<T>): (keep: seq<bool>)
    ensures |keep| == |b|
  {
    seq(|b|, j requires 0 <= j < |b| => b[j] !in a && b[j] !in b[..j])
  }

  lemma FirstOccurrencesAppend<T>(a: seq<T>, b: seq<T>)
    ensures FirstOccurrences(a + b) == FirstOccurrences(a) + NewAfter(a, b)
  {
    var t := a + b;
    forall i | 0 <= i < |t|
      ensures FirstOccurrences(t)[i] == (FirstOccurrences(a) + NewAfter(a, b))[i]
    {
      if i < |a| {
        assert t[..i] == a[..i];
      } else {
        assert t[..i] == a + b[..i - |a|];
      }
    }
  }

  /**
   * Order is kept: the result over `a + b` is the result over `a` followed by
   * the elements of `b` that occur neither in `a` nor earlier in `b`.
   */
  lemma DropDuplicatesAppend<T>(a: seq<T>, b: seq<T>)
    ensures DropDuplicates(a + b) == DropDuplicates(a) + Mask(b, NewAfter(a, b))
  {
    FirstOccurrencesAppend(a, b);
    MaskAppend(a, FirstOccurrences(a), b, NewAfter(a, b));
  }

  /** A sequence has at most as many distinct values as elements. */
  lemma ElementsBound<T>(s: seq<T>)
    ensures |Elements(s)| <= |s|
  {
    DropDuplicatesSpec(s);
  }

  /** The set of images of the elements of `s` under `g`. */
  function Image<A, B>(s: set<A>, g: A -> B): set<B> {
    set x | x in s :: g(x)
  }

  /** `g` sends no two different elements of `s` to the same value. */
  predicate InjectiveOn<A, B(==)>(s: set<A>, g: A -> B) {
    forall x, y | x in s && y in s && g(x) == g(y) :: x == y
  }

  /**
   * A set has at least as many elements as its image, and exactly as many
   * when no two of its elements share an image.
   */
  lemma {:induction false} ImageCard<A, B>(s: set<A>, g: A -> B)
    ensures |Image(s, g)| <= |s|
    ensures |Image(s, g)| == |s| <==> InjectiveOn(s, g)
    decreases s
  {
    if s != {} {
      var x :| x in s;
      var rest := s - {x};
      ImageCard(rest, g);
      assert Image(s, g) == Image(rest, g) + {g(x)};
      if g(x) in Image(rest, g) {
        var y :| y in rest && g(y) == g(x);
        assert !InjectiveOn(s, g);
      } else {
        assert InjectiveOn(s, g) <==> InjectiveOn(rest, g);
      }
    }
  }
}
