/** Dotted location paths such as `"outer.plain.value"`, as the error model
    builds them by prepending segments. `Split` reads a path back into its
    segments and `Join` writes segments out; they are inverse to each other
    on segments that hold no dot. */
module Locations {

  const Separator: char := '.'

  predicate NoDot(seg: string) {
    Separator !in seg
  }

  /** The segments of a dotted path, outermost first. */
  function Split(path: string): (segs: seq<string>)
    ensures |segs| > 0
    decreases |path|
  {
    if path == [] then [""]
    else if path[0] == Separator then [""] + Split(path[1..])
    else
      var rest := Split(path[1..]);
      [[path[0]] + rest[0]] + rest[1..]
  }

  /** The dotted path of a non-empty list of segments, outermost first. */
  function Join(segs: seq<string>): (path: string)
    requires |segs| > 0
    decreases |segs|
  {
    if |segs| == 1 then segs[0] else segs[0] + [Separator] + Join(segs[1..])
  }

  /** No segment of a split path holds a dot. */
  lemma {:induction false} SplitNoDot(path: string)
    ensures forall i :: 0 <= i < |Split(path)| ==> NoDot(Split(path)[i])
    decreases |path|
  {
    if path != [] {
      SplitNoDot(path[1..]);
      var rest := Split(path[1..]);
      if path[0] != Separator {
        var first := [path[0]] + rest[0];
        assert NoDot(first) by {
          assert NoDot(rest[0]);
          forall k | 0 <= k < |first| ensures first[k] != Separator {
            if k > 0 { assert first[k] == rest[0][k - 1]; }
          }
        }
        assert Split(path) == [first] + rest[1..];
      }
    }
  }

  /** Text without a dot in front of a path joins onto its first segment. */
  lemma {:induction false} SplitPrefix(a: string, rest: string)
    requires NoDot(a)
    ensures Split(a + rest) == [a + Split(rest)[0]] + Split(rest)[1..]
    decreases |a|
  {
    if a != [] {
      SplitPrefix(a[1..], rest);
      assert (a + rest)[1..] == a[1..] + rest;
      assert [a[0]] + (a[1..] + Split(rest)[0]) == a + Split(rest)[0];
    } else {
      var r := Split(rest);
      assert a + rest == rest && a + r[0] == r[0];
      assert r == [r[0]] + r[1..];
    }
  }

  /** Splitting at a dot splits both sides independently: the segments of
      `a.b` are those of `a` followed by those of `b`. */
  lemma {:induction false} SplitDot(a: string, b: string)
    ensures Split(a + [Separator] + b) == Split(a) + Split(b)
    decreases |a|
  {
    if a == [] {
      assert a + [Separator] + b == [Separator] + b;
      SplitCons(Separator, b);
    } else {
      SplitDot(a[1..], b);
      assert a == [a[0]] + a[1..];
      if a[0] == Separator {
        SplitDotStepSeparator(a[1..], b);
      } else {
        SplitDotStepChar(a[0], a[1..], b);
      }
    }
  }

  lemma SplitDotStepSeparator(rest: string, b: string)
    requires Split(rest + [Separator] + b) == Split(rest) + Split(b)
    ensures Split([Separator] + rest + [Separator] + b) == Split([Separator] + rest) + Split(b)
  {
    var inner := rest + [Separator] + b;
    calc {
      Split([Separator] + rest + [Separator] + b);
      { assert [Separator] + rest + [Separator] + b == [Separator] + inner; }
      Split([Separator] + inner);
      { SplitCons(Separator, inner); }
      [""] + (Split(rest) + Split(b));
      ([""] + Split(rest)) + Split(b);
      { SplitCons(Separator, rest); }
      Split([Separator] + rest) + Split(b);
    }
  }

  lemma SplitDotStepChar(c: char, rest: string, b: string)
    requires c != Separator
    requires Split(rest + [Separator] + b) == Split(rest) + Split(b)
    ensures Split([c] + rest + [Separator] + b) == Split([c] + rest) + Split(b)
  {
    var inner := rest + [Separator] + b;
    var left := Split(rest);
    calc {
      Split([c] + rest + [Separator] + b);
      { assert [c] + rest + [Separator] + b == [c] + inner; }
      Split([c] + inner);
      { SplitCons(c, inner); }
      [[c] + Split(inner)[0]] + Split(inner)[1..];
      { HeadTail(left, Split(b)); }
      [[c] + left[0]] + (left[1..] + Split(b));
      ([[c] + left[0]] + left[1..]) + Split(b);
      { SplitCons(c, rest); }
      Split([c] + rest) + Split(b);
    }
  }

  /** Proof step: the head and tail of a concatenation with a non-empty left side. */
  lemma HeadTail(x: seq<string>, y: seq<string>)
    requires |x| > 0
    ensures (x + y)[0] == x[0] && (x + y)[1..] == x[1..] + y
  {
  }

  /** One step of `Split`, for a path that starts with the character `c`. */
  lemma SplitCons(c: char, s: string)
    ensures c == Separator ==> Split([c] + s) == [""] + Split(s)
    ensures c != Separator ==> Split([c] + s) == [[c] + Split(s)[0]] + Split(s)[1..]
  {
    assert ([c] + s)[0] == c && ([c] + s)[1..] == s;
  }

  /** A single segment without a dot is a path of one segment. */
  lemma SplitSegment(a: string)
    requires NoDot(a)
    ensures Split(a) == [a]
  {
    SplitPrefix(a, []);
    assert a + [] == a;
  }

  /** Joining segments that hold no dot and splitting the result gives the segments back. */
  lemma {:induction false} SplitJoin(segs: seq<string>)
    requires |segs| > 0
    requires forall i :: 0 <= i < |segs| ==> NoDot(segs[i])
    ensures Split(Join(segs)) == segs
    decreases |segs|
  {
    if |segs| == 1 {
      SplitSegment(segs[0]);
    } else {
      SplitJoin(segs[1..]);
      SplitSegment(segs[0]);
      SplitDot(segs[0], Join(segs[1..]));
    }
  }

  /** Splitting a path and joining its segments gives the path back. */
  lemma {:induction false} JoinSplit(path: string)
    ensures Join(Split(path)) == path
    decreases |path|
  {
    if path != [] {
      JoinSplit(path[1..]);
      var rest := Split(path[1..]);
      if path[0] == Separator {
        assert ([""] + rest)[1..] == rest;
        assert path == [Separator] + path[1..];
      } else {
        var segs := [[path[0]] + rest[0]] + rest[1..];
        if |rest| == 1 {
          assert path == [path[0]] + path[1..];
        } else {
          assert segs[1..] == rest[1..];
          assert Join(rest) == rest[0] + [Separator] + Join(rest[1..]);
          assert path == [path[0]] + path[1..];
        }
      }
    }
  }
}
