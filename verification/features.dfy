/** The `--features` tokenizer of `parse_wit` (src/utils.rs:26-34): every raw
    argument is split on `,`, every piece is split on white space, empty
    pieces are dropped, and what remains is inserted into one set. */
module Features {
  import opened Text

  /** Rust's `char::is_whitespace`: the Unicode White_Space property. */
  const Whitespace: set<char> := {
    '\t', '\n', '\U{000B}', '\U{000C}', '\r', ' ', '\U{0085}', '\U{00A0}',
    '\U{1680}', '\U{2000}', '\U{2001}', '\U{2002}', '\U{2003}', '\U{2004}',
    '\U{2005}', '\U{2006}', '\U{2007}', '\U{2008}', '\U{2009}', '\U{200A}',
    '\U{2028}', '\U{2029}', '\U{202F}', '\U{205F}', '\U{3000}'
  }

  const Comma: set<char> := {','}

  /** Every character that ends a feature token. */
  const Separators: set<char> := Comma + Whitespace

  /** A well-formed feature token: not empty, no comma, no white space. */
  predicate IsFeatureName(t: string) {
    t != "" && NoneIn(t, Separators)
  }

  /** Rust's `str::split_whitespace`: non-empty words free of white space
      that, read back to back, are the text without its white space. */
  function SplitWhitespace(s: string): (r: seq<string>)
    ensures forall t :: t in r ==> t != "" && NoneIn(t, Whitespace)
    ensures Concat(r) == Strip(s, Whitespace)
  {
    WordsCover(s, Whitespace);
    Words(s, Whitespace)
  }

  /** `flat_map(|s| s.split_whitespace())` over the pieces `ps`: the words of
      every piece, in order, none of them empty or holding white space, and
      together all the pieces' text without white space. */
  function SplitWhitespaceEach(ps: seq<string>): (r: seq<string>)
    ensures forall t :: t in r ==> t != "" && NoneIn(t, Whitespace)
    ensures Concat(r) == Strip(Concat(ps), Whitespace)
  {
    if |ps| == 0 then []
    else
      var head := SplitWhitespace(ps[0]);
      var rest := SplitWhitespaceEach(ps[1..]);
      ConcatAppend(head, rest);
      StripAppend(ps[0], Concat(ps[1..]), Whitespace);
      head + rest
  }

  /** The flat-mapped white-space split is the split of every piece followed
      by one filter of the empty pieces. */
  lemma {:induction false} SplitWhitespaceEachIsFiltered(ps: seq<string>)
    ensures SplitWhitespaceEach(ps) == NonEmpty(SplitEach(ps, Whitespace))
    decreases |ps|
  {
    if |ps| > 0 {
      SplitWhitespaceEachIsFiltered(ps[1..]);
      NonEmptyAppend(Split(ps[0], Whitespace), SplitEach(ps[1..], Whitespace));
    }
  }

  /** Filtering twice is filtering once. */
  lemma {:induction false} NonEmptyIdempotent(ps: seq<string>)
    ensures NonEmpty(NonEmpty(ps)) == NonEmpty(ps)
    decreases |ps|
  {
    if |ps| > 0 {
      NonEmptyIdempotent(ps[1..]);
      if ps[0] != "" {
        var r := [ps[0]] + NonEmpty(ps[1..]);
        assert r[0] == ps[0] && r[1..] == NonEmpty(ps[1..]);
      }
    }
  }

  /** The comma-then-white-space pipeline splits on commas and white space at
      once and keeps the non-empty pieces. */
  lemma TokensAreWords(arg: string)
    ensures NonEmpty(SplitWhitespaceEach(Split(arg, Comma))) == Words(arg, Separators)
  {
    var pieces := Split(arg, Comma);
    SplitWhitespaceEachIsFiltered(pieces);
    NonEmptyIdempotent(SplitEach(pieces, Whitespace));
    SplitUnion(arg, Comma, Whitespace);
  }

  /** The tokens one raw `--features` argument contributes, in order: the
      maximal runs of the argument free of commas and white space. */
  function Tokens(arg: string): (r: seq<string>)
    ensures r == Words(arg, Separators)
    ensures forall t :: t in r ==> IsFeatureName(t)
  {
    TokensAreWords(arg);
    NonEmpty(SplitWhitespaceEach(Split(arg, Comma)))
  }

  /** The tokens of an argument, read back to back, are the argument with its
      commas and white space removed: no other character is lost. */
  lemma TokensCoverArgument(arg: string)
    ensures Concat(Tokens(arg)) == Strip(arg, Separators)
  {
    WordsCover(arg, Separators);
  }

  /** The feature set that `parse_wit` builds from all raw arguments: the
      union of every argument's tokens, each a well-formed feature name. */
  function FeatureSet(args: seq<string>): (r: set<string>)
    ensures forall t :: t in r ==> IsFeatureName(t)
  {
    if |args| == 0 then {}
    else (set t | t in Tokens(args[0])) + FeatureSet(args[1..])
  }

  /** Membership in a non-empty argument list: the first argument or one of
      the rest. */
  lemma ArgumentCases(args: seq<string>, arg: string)
    requires |args| > 0
    ensures arg in args <==> arg == args[0] || arg in args[1..]
  {
    assert args == [args[0]] + args[1..];
  }

  /** A token is in the feature set exactly when some argument yields it. */
  lemma {:induction false} FeatureSetMembers(args: seq<string>, t: string)
    ensures t in FeatureSet(args) <==> exists arg :: arg in args && t in Tokens(arg)
    decreases |args|
  {
    if |args| > 0 {
      var first := Tokens(args[0]);
      assert t in FeatureSet(args) <==> t in first || t in FeatureSet(args[1..]);
      FeatureSetMembers(args[1..], t);
      if t in first {
        ArgumentCases(args, args[0]);
      } else if t in FeatureSet(args[1..]) {
        var arg :| arg in args[1..] && t in Tokens(arg);
        ArgumentCases(args, arg);
      }
      if exists arg :: arg in args && t in Tokens(arg) {
        var arg :| arg in args && t in Tokens(arg);
        ArgumentCases(args, arg);
      }
    }
  }

  /** The feature set depends only on which arguments were given: neither
      their order nor their repetition matters. */
  lemma FeatureSetOrderFree(a: seq<string>, b: seq<string>)
    requires forall x :: x in a <==> x in b
    ensures FeatureSet(a) == FeatureSet(b)
  {
    forall t ensures t in FeatureSet(a) <==> t in FeatureSet(b) {
      FeatureSetMembers(a, t);
      FeatureSetMembers(b, t);
    }
  }

  /** Arguments given in two batches contribute the union of the batches. */
  lemma {:induction false} FeatureSetAppend(a: seq<string>, b: seq<string>)
    ensures FeatureSet(a + b) == FeatureSet(a) + FeatureSet(b)
    decreases |a|
  {
    if |a| == 0 {
      assert a + b == b;
    } else {
      assert (a + b)[0] == a[0];
      assert (a + b)[1..] == a[1..] + b;
      FeatureSetAppend(a[1..], b);
    }
  }

  /** One more argument adds its tokens to the feature set. */
  lemma FeatureSetSnoc(args: seq<string>, i: nat)
    requires i < |args|
    ensures FeatureSet(args[..i + 1]) == FeatureSet(args[..i]) + (set t | t in Tokens(args[i]))
  {
    FeatureSetAppend(args[..i], [args[i]]);
    assert args[..i + 1] == args[..i] + [args[i]];
    assert [args[i]][1..] == [];
  }

  /** The inner loop of src/utils.rs:27-33: inserts every token, in order. */
  method InsertAll(features: set<string>, tokens: seq<string>) returns (r: set<string>)
    ensures r == features + (set t | t in tokens)
  {
    r := features;
    for j := 0 to |tokens|
      invariant r == features + (set t | t in tokens[..j])
    {
      assert tokens[..j + 1] == tokens[..j] + [tokens[j]];
      r := r + {tokens[j]};
    }
    assert tokens[..|tokens|] == tokens;
  }

  /** The loop of `parse_wit` (src/utils.rs:26-34): one insertion per token of
      every argument, into a set that starts empty. */
  method CollectFeatures(args: seq<string>) returns (features: set<string>)
    ensures features == FeatureSet(args)
  {
    features := {};
    for i := 0 to |args|
      invariant features == FeatureSet(args[..i])
    {
      var tokens := Tokens(args[i]);
      features := InsertAll(features, tokens);
      FeatureSetSnoc(args, i);
    }
    assert args[..|args|] == args;
  }

  lemma TokensOfFirstExample()
    ensures Tokens("a, b") == ["a", "b"]
  {
    assert 'a' !in Separators && 'b' !in Separators;
    assert ',' in Separators && ' ' in Separators;
    SplitCons('b', "", Separators);
    assert "b" == ['b'] + "";
    assert Split("b", Separators) == ["b"];
    SplitCons(' ', "b", Separators);
    assert " b" == [' '] + "b";
    assert Split(" b", Separators) == ["", "b"];
    SplitCons(',', " b", Separators);
    assert ", b" == [','] + " b";
    assert Split(", b", Separators) == ["", "", "b"];
    SplitCons('a', ", b", Separators);
    assert "a, b" == ['a'] + ", b";
    assert ['a'] + "" == "a";
    assert Split("a, b", Separators) == ["a", "", "b"];
    assert NonEmpty(["b"]) == ["b"];
    assert NonEmpty(["", "b"]) == ["b"];
    assert NonEmpty(["a", "", "b"]) == ["a", "b"];
  }

  lemma TokensOfSecondExample()
    ensures Tokens(" c ") == ["c"]
  {
    assert 'c' !in Separators && ' ' in Separators;
    SplitCons(' ', "", Separators);
    assert " " == [' '] + "";
    assert Split(" ", Separators) == ["", ""];
    SplitCons('c', " ", Separators);
    assert "c " == ['c'] + " ";
    assert ['c'] + "" == "c";
    assert Split("c ", Separators) == ["c", ""];
    SplitCons(' ', "c ", Separators);
    assert " c " == [' '] + "c ";
    assert Split(" c ", Separators) == ["", "c", ""];
    assert NonEmpty([""]) == [];
    assert NonEmpty(["c", ""]) == ["c"];
  }

  /** `["a, b", " c "]` yields exactly `{a, b, c}`, and so does the reversed
      argument list. */
  lemma ExampleFeatures()
    ensures FeatureSet(["a, b", " c "]) == {"a", "b", "c"}
    ensures FeatureSet([" c ", "a, b"]) == {"a", "b", "c"}
  {
    TokensOfFirstExample();
    TokensOfSecondExample();
    var a := ["a, b", " c "];
    assert a[1..] == [" c "];
    assert [" c "][1..] == [];
    FeatureSetOrderFree(a, [" c ", "a, b"]);
  }
}
