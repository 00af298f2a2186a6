/** The version scan of `check_go_version` (src/utils.rs:108-116): the
    leftmost match of the regular expression `go(\d+)\.(\d+)\.(\d+)` in the
    text `go version` printed, and the decimal reading of its three capture
    groups. `\d` is taken to be an ASCII digit. */
module VersionScan {
  import opened Results

  predicate IsDigit(c: char) {
    '0' <= c <= '9'
  }

  predicate AllDigits(s: string) {
    forall k :: 0 <= k < |s| ==> IsDigit(s[k])
  }

  /** The three capture groups of a match. */
  datatype Captures = Captures(major: string, minor: string, patch: string) {
    predicate Digits() {
      AllDigits(major) && AllDigits(minor) && AllDigits(patch)
    }
  }

  /** The text `go<major>.<minor>.<patch>`. */
  function Spelled(c: Captures): string {
    "go" + c.major + "." + c.minor + "." + c.patch
  }

  /** `w` occurs in `s` at position `i`. */
  predicate Occurs(s: string, i: nat, w: string) {
    i + |w| <= |s| && forall k :: 0 <= k < |w| ==> s[i + k] == w[k]
  }

  /** The pattern's language: `s` holds `go<d>.<d>.<d>` at `i`, each `<d>` a
      non-empty string of digits. */
  predicate PatternAt(s: string, i: nat, c: Captures) {
    && c.major != "" && c.minor != "" && c.patch != ""
    && c.Digits()
    && Occurs(s, i, Spelled(c))
  }

  /** What the greedy last `\d+` adds: the occurrence is not followed by a
      digit. */
  predicate Greedy(s: string, i: nat, c: Captures) {
    var e := i + |Spelled(c)|;
    e >= |s| || !IsDigit(s[e])
  }

  /** No match of the pattern starts at `j`. */
  ghost predicate NoPatternAt(s: string, j: nat) {
    forall c :: !PatternAt(s, j, c)
  }

  /** The match `Regex::captures` reports: the greedy match at the leftmost
      position where the pattern occurs. */
  ghost predicate IsLeftmostMatch(s: string, i: nat, c: Captures) {
    && i <= |s|
    && PatternAt(s, i, c)
    && Greedy(s, i, c)
    && forall j :: 0 <= j < i ==> NoPatternAt(s, j)
  }

  /** The length of the run of digits that starts at `i`. */
  function DigitRun(s: string, i: nat): (n: nat)
    requires i <= |s|
    ensures i + n <= |s|
    decreases |s| - i
  {
    if i < |s| && IsDigit(s[i]) then 1 + DigitRun(s, i + 1) else 0
  }

  /** The run is made of digits and ends at the end of the text or before a
      character that is not a digit. */
  lemma {:induction false} DigitRunIsMaximal(s: string, i: nat)
    requires i <= |s|
    ensures forall k :: i <= k < i + DigitRun(s, i) ==> IsDigit(s[k])
    ensures i + DigitRun(s, i) == |s| || !IsDigit(s[i + DigitRun(s, i)])
    decreases |s| - i
  {
    if i < |s| && IsDigit(s[i]) {
      DigitRunIsMaximal(s, i + 1);
    }
  }

  /** Digits from `i` to `j` lie within the run from `i`; they are the whole
      run when a non-digit follows. */
  lemma {:induction false} RunCovers(s: string, i: nat, j: nat)
    requires i <= j <= |s|
    requires forall k :: i <= k < j ==> IsDigit(s[k])
    ensures DigitRun(s, i) >= j - i
    ensures j == |s| || !IsDigit(s[j]) ==> DigitRun(s, i) == j - i
    decreases j - i
  {
    if i < j {
      RunCovers(s, i + 1, j);
    }
  }

  /** The match that starts at `i`, if any. Each `\d+` takes the whole run of
      digits: a shorter run of the first two would be followed by a digit
      rather than the `.` the pattern needs, and the last is greedy. */
  function MatchAt(s: string, i: nat): (r: Option<Captures>)
    requires i <= |s|
    ensures r.Some? ==> r.value.Digits()
  {
    if i + 2 <= |s| && s[i] == 'g' && s[i + 1] == 'o' then
      var a := i + 2;
      var n1 := DigitRun(s, a);
      if n1 > 0 && a + n1 < |s| && s[a + n1] == '.' then
        var b := a + n1 + 1;
        var n2 := DigitRun(s, b);
        if n2 > 0 && b + n2 < |s| && s[b + n2] == '.' then
          var c := b + n2 + 1;
          var n3 := DigitRun(s, c);
          DigitRunIsMaximal(s, a);
          DigitRunIsMaximal(s, b);
          DigitRunIsMaximal(s, c);
          if n3 > 0 then Some(Captures(s[a..a + n1], s[b..b + n2], s[c..c + n3]))
          else None
        else None
      else None
    else None
  }

  lemma OccursConcat(s: string, i: nat, u: string, v: string)
    ensures Occurs(s, i, u + v) <==> Occurs(s, i, u) && Occurs(s, i + |u|, v)
  {
    if Occurs(s, i, u + v) {
      forall k | 0 <= k < |u| ensures s[i + k] == u[k] {
        assert (u + v)[k] == u[k];
      }
      forall k | 0 <= k < |v| ensures s[i + |u| + k] == v[k] {
        assert (u + v)[|u| + k] == v[k];
      }
    }
    if Occurs(s, i, u) && Occurs(s, i + |u|, v) {
      forall k | 0 <= k < |u + v| ensures s[i + k] == (u + v)[k] {
        if k >= |u| {
          assert s[i + |u| + (k - |u|)] == v[k - |u|];
        }
      }
    }
  }

  /** `Spelled(c)` occurs at `i` exactly when its five parts follow each
      other from `i`. */
  lemma SpelledParts(s: string, i: nat, c: Captures)
    ensures Occurs(s, i, Spelled(c)) <==>
      && Occurs(s, i, "go")
      && Occurs(s, i + 2, c.major)
      && Occurs(s, i + 2 + |c.major|, ".")
      && Occurs(s, i + 3 + |c.major|, c.minor)
      && Occurs(s, i + 3 + |c.major| + |c.minor|, ".")
      && Occurs(s, i + 4 + |c.major| + |c.minor|, c.patch)
  {
    var x1 := "go";
    var x2 := x1 + c.major;
    var x3 := x2 + ".";
    var x4 := x3 + c.minor;
    var x5 := x4 + ".";
    assert Spelled(c) == x5 + c.patch;
    OccursConcat(s, i, x5, c.patch);
    OccursConcat(s, i, x4, ".");
    OccursConcat(s, i, x3, c.minor);
    OccursConcat(s, i, x2, ".");
    OccursConcat(s, i, x1, c.major);
  }

  /** `MatchAt` is sound: what it returns occurs at `i` and is greedy. */
  lemma MatchAtSound(s: string, i: nat)
    requires i <= |s| && MatchAt(s, i).Some?
    ensures PatternAt(s, i, MatchAt(s, i).value)
    ensures Greedy(s, i, MatchAt(s, i).value)
  {
    var c := MatchAt(s, i).value;
    DigitRunIsMaximal(s, i + 4 + |c.major| + |c.minor|);
    SpelledParts(s, i, c);
    assert Occurs(s, i, "go");
    assert Occurs(s, i + 2 + |c.major|, ".");
    assert Occurs(s, i + 3 + |c.major| + |c.minor|, ".");
  }

  /** An occurrence of digits lies within the run of digits that starts
      there, and is all of it when a non-digit follows. */
  lemma RunOfOccurrence(s: string, j: nat, w: string)
    requires Occurs(s, j, w) && AllDigits(w)
    ensures DigitRun(s, j) >= |w|
    ensures j + |w| == |s| || !IsDigit(s[j + |w|]) ==> DigitRun(s, j) == |w|
  {
    forall k | j <= k < j + |w| ensures IsDigit(s[k]) {
      assert s[j + (k - j)] == w[k - j];
    }
    RunCovers(s, j, j + |w|);
  }

  /** `MatchAt` when the two dots sit right after the first two runs. */
  lemma MatchAtOfRuns(s: string, i: nat, a: nat, b: nat, d: nat)
    requires i + 2 <= |s| && s[i] == 'g' && s[i + 1] == 'o' && a == i + 2
    requires a <= |s| && DigitRun(s, a) > 0 && b == a + DigitRun(s, a) + 1 && b - 1 < |s| && s[b - 1] == '.'
    requires DigitRun(s, b) > 0 && d == b + DigitRun(s, b) + 1 && d - 1 < |s| && s[d - 1] == '.'
    requires DigitRun(s, d) > 0
    ensures MatchAt(s, i) == Some(Captures(s[a..b - 1], s[b..d - 1], s[d..d + DigitRun(s, d)]))
  {
  }

  /** An occurrence, read back as a slice. */
  lemma SliceOfOccurs(s: string, j: nat, w: string)
    requires Occurs(s, j, w)
    ensures s[j..j + |w|] == w
  {
  }

  /** `MatchAt` is complete: wherever the pattern occurs it succeeds, with
      the same first two numbers and a last one that the occurrence's
      begins. */
  lemma MatchAtComplete(s: string, i: nat, c: Captures)
    requires i <= |s| && PatternAt(s, i, c)
    ensures MatchAt(s, i).Some?
    ensures MatchAt(s, i).value.major == c.major && MatchAt(s, i).value.minor == c.minor
    ensures c.patch <= MatchAt(s, i).value.patch
  {
    SpelledParts(s, i, c);
    var a := i + 2;
    var b := a + |c.major| + 1;
    var d := b + |c.minor| + 1;
    assert s[i] == 'g' && s[i + 1] == 'o' && s[b - 1] == '.' && s[d - 1] == '.' by {
      assert s[i + 0] == "go"[0] && s[i + 1] == "go"[1];
      assert s[b - 1 + 0] == "."[0];
      assert s[d - 1 + 0] == "."[0];
    }
    RunOfOccurrence(s, a, c.major);
    RunOfOccurrence(s, b, c.minor);
    RunOfOccurrence(s, d, c.patch);
    SliceOfOccurs(s, a, c.major);
    SliceOfOccurs(s, b, c.minor);
    SliceOfOccurs(s, d, c.patch);
    var n3 := DigitRun(s, d);
    assert s[d..d + |c.patch|] == s[d..d + n3][..|c.patch|];
    MatchAtOfRuns(s, i, a, b, d);
  }

  /** A greedy occurrence is exactly what `MatchAt` returns. */
  lemma MatchAtExact(s: string, i: nat, c: Captures)
    requires i <= |s| && PatternAt(s, i, c) && Greedy(s, i, c)
    ensures MatchAt(s, i) == Some(c)
  {
    MatchAtComplete(s, i, c);
    SpelledParts(s, i, c);
    var d := i + 4 + |c.major| + |c.minor|;
    assert d + |c.patch| == i + |Spelled(c)|;
    RunOfOccurrence(s, d, c.patch);
    SliceOfOccurs(s, d, c.patch);
    assert MatchAt(s, i).value.patch == s[d..d + DigitRun(s, d)];
  }

  /** `MatchAt` succeeds exactly where the pattern occurs. */
  lemma MatchAtIff(s: string, i: nat)
    requires i <= |s|
    ensures MatchAt(s, i).None? <==> NoPatternAt(s, i)
  {
    if MatchAt(s, i).Some? {
      MatchAtSound(s, i);
    }
    forall c | PatternAt(s, i, c) ensures MatchAt(s, i).Some? {
      MatchAtComplete(s, i, c);
    }
  }

  /** The leftmost match at or after `from` and where it starts. */
  function Search(s: string, from: nat): (r: Option<(nat, Captures)>)
    requires from <= |s|
    ensures r.Some? ==> from <= r.value.0 <= |s| && MatchAt(s, r.value.0) == Some(r.value.1)
    ensures r.Some? ==> forall j :: from <= j < r.value.0 ==> MatchAt(s, j).None?
    ensures r.None? ==> forall j :: from <= j <= |s| ==> MatchAt(s, j).None?
    decreases |s| - from
  {
    match MatchAt(s, from)
    case Some(c) => Some((from, c))
    case None => if from == |s| then None else Search(s, from + 1)
  }

  /** `Search` from the start finds the leftmost match, and finds nothing
      exactly when the pattern occurs nowhere. */
  lemma SearchIsLeftmost(s: string)
    ensures forall i: nat, c :: Search(s, 0) == Some((i, c)) <==> IsLeftmostMatch(s, i, c)
    ensures Search(s, 0).None? <==> forall j :: 0 <= j <= |s| ==> NoPatternAt(s, j)
  {
    forall j | 0 <= j <= |s| ensures MatchAt(s, j).None? <==> NoPatternAt(s, j) {
      MatchAtIff(s, j);
    }
    match Search(s, 0)
    case None =>
      forall i: nat, c ensures !IsLeftmostMatch(s, i, c) {
        if i <= |s| {
          assert NoPatternAt(s, i);
        }
      }
    case Some((i, c)) =>
      MatchAtSound(s, i);
      forall i': nat, c' | IsLeftmostMatch(s, i', c') ensures i' == i && c' == c {
        MatchAtExact(s, i', c');
      }
  }

  function Pow10(n: nat): (r: nat)
    ensures r >= 1
  {
    if n == 0 then 1 else 10 * Pow10(n - 1)
  }

  /** The value of a string of decimal digits, as `str::parse` reads it
      (leading zeros allowed): less than ten to the number of digits. */
  function DecimalValue(ds: string): (r: nat)
    requires AllDigits(ds)
    ensures r < Pow10(|ds|)
  {
    if |ds| == 0 then 0
    else DecimalValue(ds[..|ds| - 1]) * 10 + (ds[|ds| - 1] as int - '0' as int)
  }

  /** The decimal digit for `d`. */
  function DigitChar(d: nat): (c: char)
    requires d < 10
    ensures IsDigit(c) && c as int - '0' as int == d
  {
    ('0' as int + d) as char
  }

  /** The decimal spelling of `n`, without leading zeros. */
  function ShowNat(n: nat): (s: string)
    ensures s != "" && AllDigits(s)
  {
    if n < 10 then [DigitChar(n)] else ShowNat(n / 10) + [DigitChar(n % 10)]
  }

  /** Reading back a spelled number gives the number. */
  lemma {:induction false} DecimalValueShowNat(n: nat)
    ensures DecimalValue(ShowNat(n)) == n
  {
    if n >= 10 {
      var s := ShowNat(n);
      assert s[..|s| - 1] == ShowNat(n / 10);
      DecimalValueShowNat(n / 10);
    }
  }

  /** Digits read positionally: the value of `a + b` is the value of `a`
      shifted left by the length of `b`, plus the value of `b`. */
  lemma {:induction false} DecimalValueAppend(a: string, b: string)
    requires AllDigits(a) && AllDigits(b)
    ensures AllDigits(a + b)
    ensures DecimalValue(a + b) == DecimalValue(a) * Pow10(|b|) + DecimalValue(b)
    decreases |b|
  {
    assert AllDigits(a + b) by {
      forall k | 0 <= k < |a + b| ensures IsDigit((a + b)[k]) {
        if k < |a| {
          assert (a + b)[k] == a[k];
        } else {
          assert (a + b)[k] == b[k - |a|];
        }
      }
    }
    if |b| == 0 {
      assert a + b == a;
    } else {
      var b' := b[..|b| - 1];
      var d := b[|b| - 1] as int - '0' as int;
      assert AllDigits(b') by {
        forall k | 0 <= k < |b'| ensures IsDigit(b'[k]) {
          assert b'[k] == b[k];
        }
      }
      assert (a + b)[..|a + b| - 1] == a + b';
      assert (a + b)[|a + b| - 1] == b[|b| - 1];
      DecimalValueAppend(a, b');
      assert DecimalValue(a + b) == DecimalValue(a + b') * 10 + d;
      assert DecimalValue(b) == DecimalValue(b') * 10 + d;
      assert Pow10(|b|) == Pow10(|b'|) * 10;
      ShiftDigit(DecimalValue(a), Pow10(|b'|), DecimalValue(b'), d);
    }
  }

  /** The arithmetic of appending one digit `d` to `x` shifted by `p`. */
  lemma ShiftDigit(x: int, p: int, y: int, d: int)
    ensures (x * p + y) * 10 + d == x * (p * 10) + (y * 10 + d)
  {
  }

  /** A leading zero does not change the value `parse` reads. */
  lemma LeadingZero(ds: string)
    requires AllDigits(ds)
    ensures AllDigits("0" + ds)
    ensures DecimalValue("0" + ds) == DecimalValue(ds)
  {
    DecimalValueAppend("0", ds);
  }

  /** A run of digits that does not start with zero has a value of at least
      ten to one less than its length. */
  lemma {:induction false} LeadingDigitBound(ds: string)
    requires AllDigits(ds) && ds != "" && ds[0] != '0'
    ensures DecimalValue(ds) >= Pow10(|ds| - 1)
  {
    var head, tail := ds[..1], ds[1..];
    assert AllDigits(head) && head[0] == ds[0];
    assert AllDigits(tail) by {
      forall k | 0 <= k < |tail| ensures IsDigit(tail[k]) {
        assert tail[k] == ds[k + 1];
      }
    }
    assert head + tail == ds;
    DecimalValueAppend(head, tail);
    assert DecimalValue(head) >= 1;
    ScaleAtLeast(DecimalValue(head), Pow10(|tail|));
  }

  /** Scaling a positive `p` by at least one does not make it smaller. */
  lemma ScaleAtLeast(x: int, p: int)
    requires x >= 1 && p >= 1
    ensures x * p >= p
  {
  }

  /** Spelling the value of a run of digits without a superfluous leading
      zero gives the run back: `ShowNat` and `DecimalValue` are inverse on
      canonical spellings. */
  lemma {:induction false} ShowDecimalValue(ds: string)
    requires AllDigits(ds) && ds != "" && (ds[0] != '0' || |ds| == 1)
    ensures ShowNat(DecimalValue(ds)) == ds
    decreases |ds|
  {
    var d := ds[|ds| - 1] as int - '0' as int;
    if |ds| == 1 {
      assert DecimalValue(ds) == d;
      assert DigitChar(d) == ds[0];
    } else {
      var ds' := ds[..|ds| - 1];
      assert AllDigits(ds') by {
        forall k | 0 <= k < |ds'| ensures IsDigit(ds'[k]) {
          assert ds'[k] == ds[k];
        }
      }
      assert ds'[0] == ds[0];
      LeadingDigitBound(ds');
      ShowDecimalValue(ds');
      var n := DecimalValue(ds);
      assert n == DecimalValue(ds') * 10 + d;
      assert n >= 10 && n / 10 == DecimalValue(ds') && n % 10 == d;
      assert DigitChar(d) == ds[|ds| - 1];
      assert ds' + [ds[|ds| - 1]] == ds;
    }
  }
}
