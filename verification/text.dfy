/** Character-sequence helpers shared by the feature tokenizer and the path
    model: splitting on a set of separator characters with the semantics of
    Rust's `str::split` (every separator closes a piece and empty pieces are
    kept), dropping empty pieces, flattening and joining. */
module Text {

  /** No character of `t` is one of `seps`. */
  predicate NoneIn(t: string, seps: set<char>) {
    forall k :: 0 <= k < |t| ==> t[k] !in seps
  }

  /** `s` with every character of `seps` removed. */
  function Strip(s: string, seps: set<char>): (r: string)
    ensures NoneIn(r, seps)
    ensures |r| <= |s|
  {
    if |s| == 0 then ""
    else if s[0] in seps then Strip(s[1..], seps)
    else [s[0]] + Strip(s[1..], seps)
  }

  /** Rust's `s.split(pattern)` where the pattern matches the characters of
      `seps`: k separators give k + 1 pieces, and consecutive separators give
      empty pieces. */
  function Split(s: string, seps: set<char>): (r: seq<string>)
    ensures |r| >= 1
    ensures forall i :: 0 <= i < |r| ==> NoneIn(r[i], seps)
  {
    if |s| == 0 then [""]
    else
      var rest := Split(s[1..], seps);
      if s[0] in seps then [""] + rest
      else [[s[0]] + rest[0]] + rest[1..]
  }

  /** One unfolding step of `Split` on text that starts with `c`. */
  lemma SplitCons(c: char, t: string, seps: set<char>)
    ensures c in seps ==> Split([c] + t, seps) == [""] + Split(t, seps)
    ensures c !in seps ==> Split([c] + t, seps) == [[c] + Split(t, seps)[0]] + Split(t, seps)[1..]
  {
    assert ([c] + t)[0] == c && ([c] + t)[1..] == t;
  }

  /** The pieces of `ps` that are not empty, in order (Rust's
      `.filter(|f| !f.is_empty())`). */
  function NonEmpty(ps: seq<string>): (r: seq<string>)
    ensures |r| <= |ps|
    ensures forall t :: t in r <==> t in ps && t != ""
  {
    if |ps| == 0 then []
    else if ps[0] == "" then NonEmpty(ps[1..])
    else [ps[0]] + NonEmpty(ps[1..])
  }

  /** Rust's `s.split(pattern).filter(|f| !f.is_empty())`; with the white-space
      characters as `seps` this is `split_whitespace`. Every word is non-empty
      and free of separators. */
  function Words(s: string, seps: set<char>): (r: seq<string>)
    ensures forall t :: t in r ==> t != "" && NoneIn(t, seps)
  {
    var ps := Split(s, seps);
    forall t | t in NonEmpty(ps) ensures t != "" && NoneIn(t, seps) {
      assert t in ps;
      var i :| 0 <= i < |ps| && ps[i] == t;
    }
    NonEmpty(ps)
  }

  /** The words read back to back are the text without its separators: no
      other character is lost. */
  lemma WordsCover(s: string, seps: set<char>)
    ensures Concat(Words(s, seps)) == Strip(s, seps)
  {
    ConcatNonEmpty(Split(s, seps));
    ConcatSplit(s, seps);
  }

  /** Concatenation of a sequence of sequences. */
  function Concat<T>(ss: seq<seq<T>>): seq<T> {
    if |ss| == 0 then [] else ss[0] + Concat(ss[1..])
  }

  /** `Concat` distributes over concatenation. */
  lemma {:induction false} ConcatAppend<T>(a: seq<seq<T>>, b: seq<seq<T>>)
    ensures Concat(a + b) == Concat(a) + Concat(b)
    decreases |a|
  {
    if |a| == 0 {
      assert a + b == b;
    } else {
      assert (a + b)[0] == a[0];
      assert (a + b)[1..] == a[1..] + b;
      ConcatAppend(a[1..], b);
    }
  }

  /** `Strip` distributes over concatenation. */
  lemma {:induction false} StripAppend(a: string, b: string, seps: set<char>)
    ensures Strip(a + b, seps) == Strip(a, seps) + Strip(b, seps)
    decreases |a|
  {
    if |a| == 0 {
      assert a + b == b;
    } else {
      assert (a + b)[0] == a[0];
      assert (a + b)[1..] == a[1..] + b;
      StripAppend(a[1..], b, seps);
    }
  }

  /** Splits every piece of `ps` on `seps` and concatenates the results
      (Rust's `flat_map(|s| s.split(..))`). */
  function SplitEach(ps: seq<string>, seps: set<char>): (r: seq<string>)
    ensures |r| >= |ps|
  {
    if |ps| == 0 then [] else Split(ps[0], seps) + SplitEach(ps[1..], seps)
  }

  /** `ps` joined with the separator `c` between consecutive pieces. */
  function Join(ps: seq<string>, c: char): string {
    if |ps| == 0 then ""
    else if |ps| == 1 then ps[0]
    else ps[0] + [c] + Join(ps[1..], c)
  }

  /** Joining the pieces of a split on one character with that character gives
      back the original text: `Split` loses nothing but the separators. */
  lemma {:induction false} JoinSplit(s: string, c: char)
    ensures Join(Split(s, {c}), c) == s
    decreases |s|
  {
    if |s| > 0 {
      var rest := Split(s[1..], {c});
      JoinSplit(s[1..], c);
      if s[0] == c {
        assert Split(s, {c}) == [""] + rest;
        assert s == [c] + s[1..];
      } else {
        assert Split(s, {c}) == [[s[0]] + rest[0]] + rest[1..];
        if |rest| == 1 {
          assert s == [s[0]] + s[1..];
        } else {
          assert Join(rest, c) == rest[0] + [c] + Join(rest[1..], c);
          assert s == [s[0]] + s[1..];
        }
      }
    }
  }

  /** Splitting on the union of two separator sets is splitting on the first
      and then splitting every piece on the second. */
  lemma {:induction false} SplitUnion(s: string, p: set<char>, q: set<char>)
    ensures Split(s, p + q) == SplitEach(Split(s, p), q)
    decreases |s|
  {
    if |s| > 0 {
      var r := Split(s[1..], p);
      SplitUnion(s[1..], p, q);
      var e := SplitEach(r[1..], q);
      var x := Split(r[0], q);
      assert SplitEach(r, q) == x + e;
      if s[0] in p {
        assert Split(s, p) == [""] + r;
        assert SplitEach([""] + r, q) == [""] + SplitEach(r, q) by {
          assert ([""] + r)[1..] == r;
        }
      } else {
        var head := [s[0]] + r[0];
        assert Split(s, p) == [head] + r[1..];
        assert SplitEach([head] + r[1..], q) == Split(head, q) + e by {
          assert ([head] + r[1..])[1..] == r[1..];
        }
        assert head[1..] == r[0];
        if s[0] in q {
          assert Split(head, q) == [""] + x;
        } else {
          assert Split(head, q) == [[s[0]] + x[0]] + x[1..];
          assert (x + e)[0] == x[0];
          assert (x + e)[1..] == x[1..] + e;
        }
      }
    }
  }

  /** `NonEmpty` distributes over concatenation. */
  lemma {:induction false} NonEmptyAppend(a: seq<string>, b: seq<string>)
    ensures NonEmpty(a + b) == NonEmpty(a) + NonEmpty(b)
    decreases |a|
  {
    if |a| == 0 {
      assert a + b == b;
    } else {
      assert (a + b)[0] == a[0];
      assert (a + b)[1..] == a[1..] + b;
      NonEmptyAppend(a[1..], b);
    }
  }

  /** Splitting around a separator character: the pieces of `a`, then the
      pieces of `b`. */
  lemma {:induction false} SplitAroundSeparator(a: string, c: char, b: string, seps: set<char>)
    requires c in seps
    ensures Split(a + [c] + b, seps) == Split(a, seps) + Split(b, seps)
    decreases |a|
  {
    if |a| == 0 {
      assert a + [c] + b == [c] + b;
      assert ([c] + b)[1..] == b;
    } else {
      assert (a + [c] + b)[1..] == a[1..] + [c] + b;
      SplitAroundSeparator(a[1..], c, b, seps);
    }
  }

  /** Concatenating the pieces of a split gives the text without separators. */
  lemma {:induction false} ConcatSplit(s: string, seps: set<char>)
    ensures Concat(Split(s, seps)) == Strip(s, seps)
    decreases |s|
  {
    if |s| > 0 {
      var r := Split(s[1..], seps);
      ConcatSplit(s[1..], seps);
      if s[0] in seps {
        assert ([""] + r)[1..] == r;
      } else {
        var head := [s[0]] + r[0];
        assert Split(s, seps) == [head] + r[1..];
        assert ([head] + r[1..])[1..] == r[1..];
        assert Concat(r) == r[0] + Concat(r[1..]);
      }
    }
  }

  /** Dropping empty pieces does not change the concatenation. */
  lemma {:induction false} ConcatNonEmpty(ps: seq<string>)
    ensures Concat(NonEmpty(ps)) == Concat(ps)
    decreases |ps|
  {
    if |ps| > 0 {
      ConcatNonEmpty(ps[1..]);
      if ps[0] != "" {
        assert ([ps[0]] + NonEmpty(ps[1..]))[1..] == NonEmpty(ps[1..]);
      }
    }
  }
}
