/**
 * The JavaScript string operations the extension relies on, with their
 * ECMAScript meaning: `includes`, `indexOf`, `split` on a string separator,
 * `split` on a one-character class (`/[.,]/`), `Array.prototype.join` and
 * `trim`. Every separator here is non-empty, as it is everywhere in the source.
 */
module JsStrings {
  import opened Wrappers

  /** `sep` occurs in `s` starting at index `i`. */
  predicate OccursAt(s: string, sep: string, i: int) {
    0 <= i && i + |sep| <= |s| && s[i..i + |sep|] == sep
  }

  /** `s.includes(sep)`. */
  predicate Includes(s: string, sep: string) {
    exists i :: 0 <= i <= |s| - |sep| && OccursAt(s, sep, i)
  }

  /** `s.indexOf(sep)`, with -1 as `None`: the first index at which `sep` occurs. */
  function Find(s: string, sep: string): (r: Option<nat>)
    requires |sep| > 0
    ensures r.Some? ==> OccursAt(s, sep, r.value)
    ensures r.Some? ==> forall j :: 0 <= j < r.value ==> !OccursAt(s, sep, j)
    ensures r.None? <==> !Includes(s, sep)
    decreases |s|
  {
    if |s| < |sep| then None
    else if s[..|sep|] == sep then assert OccursAt(s, sep, 0); Some(0)
    else
      var tail := s[1..];
      assert forall j :: OccursAt(tail, sep, j) <==> OccursAt(s, sep, j + 1) by {
        forall j ensures OccursAt(tail, sep, j) <==> OccursAt(s, sep, j + 1) {
          if 0 <= j && j + |sep| <= |tail| {
            assert tail[j..j + |sep|] == s[j + 1..j + 1 + |sep|];
          }
        }
      }
      match Find(tail, sep)
      case None =>
        assert !Includes(s, sep) by {
          forall j | 0 <= j <= |s| - |sep| ensures !OccursAt(s, sep, j) {
            if j == 0 {
              assert s[0..|sep|] == s[..|sep|];
            } else {
              assert !OccursAt(tail, sep, j - 1);
            }
          }
        }
        None
      case Some(k) =>
        assert OccursAt(s, sep, k + 1);
        assert forall j :: 0 <= j < k + 1 ==> !OccursAt(s, sep, j) by {
          forall j | 0 <= j < k + 1 ensures !OccursAt(s, sep, j) {
            if j == 0 {
              assert s[0..|sep|] == s[..|sep|];
            } else {
              assert !OccursAt(tail, sep, j - 1);
            }
          }
        }
        Some(k + 1)
  }

  /** The text of `s` before the first `sep` (all of `s` when `sep` does not occur). */
  function Before(s: string, sep: string): (r: string)
    requires |sep| > 0
    ensures |r| <= |s| && r == s[..|r|]
    ensures forall j :: 0 <= j < |r| ==> !OccursAt(s, sep, j)
    ensures Includes(s, sep) ==> OccursAt(s, sep, |r|)
    ensures !Includes(s, sep) ==> r == s
  {
    match Find(s, sep)
    case None => s
    case Some(i) => s[..i]
  }

  /** The text of `s` after the first `sep`. */
  function After(s: string, sep: string): (r: string)
    requires |sep| > 0 && Includes(s, sep)
    ensures s == Before(s, sep) + sep + r
  {
    var i := |Before(s, sep)|;
    assert s == s[..i] + s[i..i + |sep|] + s[i + |sep|..];
    s[i + |sep|..]
  }

  /** `s.split(sep)`: the pieces of `s` between successive non-overlapping occurrences of `sep`, scanning from the left. */
  function Split(s: string, sep: string): (r: seq<string>)
    requires |sep| > 0
    ensures |r| >= 1
    ensures |r| >= 2 <==> Includes(s, sep)
    decreases |s|
  {
    match Find(s, sep)
    case None => [s]
    case Some(i) => [s[..i]] + Split(s[i + |sep|..], sep)
  }

  /** `xs.join(sep)`; the empty array joins to the empty string. */
  function Join(xs: seq<string>, sep: string): string {
    if |xs| == 0 then ""
    else if |xs| == 1 then xs[0]
    else xs[0] + sep + Join(xs[1..], sep)
  }

  /** `s.split(sep)[0]` is the text before the first `sep`. */
  lemma SplitFirst(s: string, sep: string)
    requires |sep| > 0
    ensures Split(s, sep)[0] == Before(s, sep)
  {
  }

  /** When `sep` occurs, `s.split(sep)[1]` is the text between the first `sep` and the next one (or the end of `s`), not the whole remainder. */
  lemma SplitSecond(s: string, sep: string)
    requires |sep| > 0 && Includes(s, sep)
    ensures Split(s, sep)[1] == Before(After(s, sep), sep)
  {
    var i := Find(s, sep).value;
    assert |Before(s, sep)| == i;
    assert After(s, sep) == s[i + |sep|..];
    SplitFirst(s[i + |sep|..], sep);
  }

  /** Joining the pieces of a split with the same separator gives back the string. */
  lemma {:induction false} JoinSplit(s: string, sep: string)
    requires |sep| > 0
    ensures Join(Split(s, sep), sep) == s
    decreases |s|
  {
    match Find(s, sep)
    case None =>
    case Some(i) =>
      var rest := s[i + |sep|..];
      var ys := Split(rest, sep);
      assert Split(s, sep) == [s[..i]] + ys;
      JoinSplit(rest, sep);
      JoinCons(s[..i], ys, sep);
      AroundOccurrence(s, sep, i);
  }

  /** An occurrence cuts its string into the text before it, itself, and the text after it. */
  lemma AroundOccurrence(s: string, sep: string, i: int)
    requires OccursAt(s, sep, i)
    ensures s == s[..i] + sep + s[i + |sep|..]
  {
    assert s == s[..i] + s[i..i + |sep|] + s[i + |sep|..];
  }

  lemma JoinCons(x: string, ys: seq<string>, sep: string)
    requires |ys| >= 1
    ensures Join([x] + ys, sep) == x + sep + Join(ys, sep)
  {
    assert ([x] + ys)[1..] == ys;
  }

  /** Splitting a join on a one-character separator that occurs in none of the parts gives back the parts. */
  lemma {:induction false} SplitJoin(xs: seq<string>, sep: string)
    requires |sep| == 1 && |xs| >= 1
    requires forall k :: 0 <= k < |xs| ==> sep[0] !in xs[k]
    ensures Split(Join(xs, sep), sep) == xs
    decreases |xs|
  {
    var s := Join(xs, sep);
    if |xs| == 1 {
      NoCharNoOccurrence(xs[0], sep);
      assert xs == [xs[0]];
    } else {
      var x := xs[0];
      var rest := Join(xs[1..], sep);
      assert s == x + sep + rest;
      FirstOccurrenceAfter(x, sep, rest);
      assert s[..|x|] == x;
      assert s[|x| + |sep|..] == rest;
      SplitJoin(xs[1..], sep);
      assert xs == [x] + xs[1..];
    }
  }

  /** A one-character separator whose character is absent does not occur. */
  lemma NoCharNoOccurrence(s: string, sep: string)
    requires |sep| == 1 && sep[0] !in s
    ensures !Includes(s, sep)
  {
    forall j | 0 <= j <= |s| - |sep| ensures !OccursAt(s, sep, j) {
      assert s[j..j + 1][0] == s[j];
    }
  }

  /** A one-character separator that is absent leaves the whole string before it. */
  lemma NoCharNoOccurrenceIf(s: string, sep: string)
    requires |sep| == 1
    ensures sep[0] !in s ==> Before(s, sep) == s
  {
    if sep[0] !in s {
      NoCharNoOccurrence(s, sep);
    }
  }

  /** In `x + sep + rest`, when `x` lacks the first character of `sep`, the first `sep` is the one right after `x`. */
  lemma FirstOccurrenceAfter(x: string, sep: string, rest: string)
    requires |sep| > 0 && sep[0] !in x
    ensures Find(x + sep + rest, sep) == Some(|x|)
  {
    var s := x + sep + rest;
    assert OccursAt(s, sep, |x|) by { assert s[|x|..|x| + |sep|] == sep; }
    forall j | 0 <= j < |x| ensures !OccursAt(s, sep, j) {
      assert s[j] == x[j];
    }
  }

  /** No `sep` starts inside `x` in `x + y` when `x` lacks the first character of `sep`. */
  lemma LeadingCharAbsent(x: string, y: string, sep: string)
    requires |sep| > 0 && sep[0] !in x
    ensures forall j :: 0 <= j < |x| ==> !OccursAt(x + y, sep, j)
  {
    var s := x + y;
    forall j | 0 <= j < |x| ensures !OccursAt(s, sep, j) {
      assert s[j] == x[j];
    }
  }

  /** A string lacking some character of `sep` does not include `sep`. */
  lemma AbsentCharNotIncluded(s: string, sep: string, c: char)
    requires c in sep && c !in s
    ensures !Includes(s, sep)
  {
  }

  /**
   * No `sep` starts inside `x` in `x + y` when `x` lacks a character of `sep`
   * and the last `|sep| - 1` characters of `x` lack its first character.
   */
  lemma NoEarlyOccurrence(x: string, y: string, sep: string, c: char)
    requires |sep| > 0 && c in sep && c !in x
    requires |x| >= |sep| - 1 && sep[0] !in x[|x| - |sep| + 1..]
    ensures forall j :: 0 <= j < |x| ==> !OccursAt(x + y, sep, j)
  {
    var s := x + y;
    forall j | 0 <= j < |x| ensures !OccursAt(s, sep, j) {
      if j + |sep| <= |x| {
        assert s[j..j + |sep|] == x[j..j + |sep|];
        AbsentCharNotIncluded(x, sep, c);
        assert !OccursAt(x, sep, j);
      } else {
        assert s[j] == x[j] == x[|x| - |sep| + 1..][j - (|x| - |sep| + 1)];
      }
    }
  }

  /** When no `sep` starts inside `x`, the text before and after the first `sep` of `x + y` are found in `y`. */
  lemma BeforeSkip(x: string, y: string, sep: string)
    requires |sep| > 0
    requires forall j :: 0 <= j < |x| ==> !OccursAt(x + y, sep, j)
    ensures Before(x + y, sep) == x + Before(y, sep)
    ensures Includes(y, sep) ==> Includes(x + y, sep) && After(x + y, sep) == After(y, sep)
  {
    var s := x + y;
    forall k | 0 <= k ensures OccursAt(s, sep, |x| + k) == OccursAt(y, sep, k) {
      if |x| + k + |sep| <= |s| {
        assert s[|x| + k..|x| + k + |sep|] == y[k..k + |sep|];
      }
    }
    var b := Before(y, sep);
    var r := Before(s, sep);
    if Includes(y, sep) {
      assert OccursAt(s, sep, |x| + |b|);
      assert Includes(s, sep);
      assert OccursAt(s, sep, |r|);
      assert |r| >= |x|;
      assert OccursAt(y, sep, |r| - |x|);
      assert |r| == |x| + |b|;
      assert r == x + b by { assert s[..|x| + |b|] == x + y[..|b|]; }
      var a := After(s, sep);
      var a' := After(y, sep);
      assert s == x + b + sep + a;
      assert s == x + (b + sep + a');
      assert a == s[|x| + |b| + |sep|..] == a';
    } else {
      forall i | 0 <= i <= |s| - |sep| ensures !OccursAt(s, sep, i) {
        if i >= |x| {
          assert OccursAt(s, sep, i) == OccursAt(y, sep, i - |x|);
        }
      }
    }
  }

  /** `sep` occurs where it is placed. */
  lemma OccursBetween(a: string, sep: string, b: string)
    ensures OccursAt(a + sep + b, sep, |a|) && Includes(a + sep + b, sep)
  {
    var s := a + sep + b;
    assert s[|a|..|a| + |sep|] == sep;
    assert OccursAt(s, sep, |a|);
  }

  /** When no `sep` starts inside `x`, the first `sep` of `x + sep + y` is the one after `x`. */
  lemma FirstSeparator(x: string, sep: string, y: string)
    requires |sep| > 0
    requires forall j :: 0 <= j < |x| ==> !OccursAt(x + (sep + y), sep, j)
    ensures Includes(x + sep + y, sep)
    ensures Before(x + sep + y, sep) == x && After(x + sep + y, sep) == y
  {
    assert x + sep + y == x + (sep + y);
    BeforeSkip(x, sep + y, sep);
    BeforeLeading(sep, y);
  }

  /** A string that starts with `sep` has nothing before its first `sep`. */
  lemma BeforeLeading(sep: string, rest: string)
    requires |sep| > 0
    ensures Includes(sep + rest, sep)
    ensures Before(sep + rest, sep) == "" && After(sep + rest, sep) == rest
  {
    var s := sep + rest;
    assert OccursAt(s, sep, 0) by { assert s[0..|sep|] == sep; }
    assert s == "" + sep + rest;
  }

  /** The index of the first character of `s` that belongs to `cs`. */
  function FindAny(s: string, cs: set<char>): (r: Option<nat>)
    ensures r.Some? ==> r.value < |s| && s[r.value] in cs
    ensures r.Some? ==> forall j :: 0 <= j < r.value ==> s[j] !in cs
    ensures r.None? ==> forall j :: 0 <= j < |s| ==> s[j] !in cs
  {
    if |s| == 0 then None
    else if s[0] in cs then Some(0)
    else match FindAny(s[1..], cs)
      case None => None
      case Some(k) => Some(k + 1)
  }

  /** `s.split(/[…]/)` for a regular expression that is one character class: the pieces between the characters of `cs`. */
  function SplitAny(s: string, cs: set<char>): (r: seq<string>)
    ensures |r| >= 1
    ensures |r[0]| <= |s| && r[0] == s[..|r[0]|]
    ensures forall j :: 0 <= j < |r[0]| ==> s[j] !in cs
    ensures |r[0]| < |s| ==> s[|r[0]|] in cs
    ensures forall k :: 0 <= k < |r| ==> forall j :: 0 <= j < |r[k]| ==> r[k][j] !in cs
    decreases |s|
  {
    match FindAny(s, cs)
    case None => [s]
    case Some(i) => [s[..i]] + SplitAny(s[i + 1..], cs)
  }

  /** The first piece of `s.split(/[…]/)` ends at the first character of `cs`. */
  lemma SplitAnyFirst(s: string, cs: set<char>, k: nat)
    requires k <= |s| && (k < |s| ==> s[k] in cs)
    requires forall c :: c in cs ==> c !in s[..k]
    ensures SplitAny(s, cs)[0] == s[..k]
  {
  }

  /** The characters `String.prototype.trim` removes: ECMAScript WhiteSpace and LineTerminator. */
  predicate IsJsSpace(c: char) {
    || c == ' ' || c == '\t' || c == '\n' || c == '\r'
    || c == '\U{000B}' || c == '\U{000C}' || c == '\U{00A0}' || c == '\U{1680}'
    || ('\U{2000}' <= c <= '\U{200A}')
    || c == '\U{2028}' || c == '\U{2029}' || c == '\U{202F}' || c == '\U{205F}'
    || c == '\U{3000}' || c == '\U{FEFF}'
  }

  predicate AllSpace(s: string) {
    forall k :: 0 <= k < |s| ==> IsJsSpace(s[k])
  }

  /** Neither starts nor ends with whitespace. */
  predicate Trimmed(s: string) {
    s == [] || (!IsJsSpace(s[0]) && !IsJsSpace(s[|s| - 1]))
  }

  /** The end of the run of whitespace that starts at `i`. */
  function SpaceRunEnd(s: string, i: nat): (r: nat)
    requires i <= |s|
    ensures i <= r <= |s|
    ensures forall k :: i <= k < r ==> IsJsSpace(s[k])
    ensures r < |s| ==> !IsJsSpace(s[r])
    decreases |s| - i
  {
    if i < |s| && IsJsSpace(s[i]) then SpaceRunEnd(s, i + 1) else i
  }

  /** The start of the run of whitespace that ends at `j`, going no lower than `lo`. */
  function SpaceRunStart(s: string, lo: nat, j: nat): (r: nat)
    requires lo <= j <= |s|
    ensures lo <= r <= j
    ensures forall k :: r <= k < j ==> IsJsSpace(s[k])
    ensures r > lo ==> !IsJsSpace(s[r - 1])
    decreases j
  {
    if j > lo && IsJsSpace(s[j - 1]) then SpaceRunStart(s, lo, j - 1) else j
  }

  /** `s.trim()`: a slice of `s` with only whitespace around it, itself free of leading and trailing whitespace. */
  function Trim(s: string): (r: string)
    ensures Trimmed(r)
    ensures exists i :: 0 <= i <= |s| - |r| && r == s[i..i + |r|] && AllSpace(s[..i]) && AllSpace(s[i + |r|..])
  {
    var a := SpaceRunEnd(s, 0);
    var b := SpaceRunStart(s, a, |s|);
    assert AllSpace(s[..a]) && AllSpace(s[b..]);
    assert s[a..b] == s[a..a + |s[a..b]|];
    s[a..b]
  }

  /** `trim` strips exactly the surrounding whitespace: whatever whitespace surrounds a trimmed string, trimming recovers it. */
  lemma TrimUnique(a: string, t: string, b: string)
    requires AllSpace(a) && AllSpace(b) && Trimmed(t)
    ensures Trim(a + t + b) == t
  {
    var s := a + t + b;
    assert forall k :: 0 <= k < |a| ==> s[k] == a[k];
    assert forall k :: |a| + |t| <= k < |s| ==> s[k] == b[k - |a| - |t|];
    if t == [] {
      assert SpaceRunEnd(s, 0) == |s|;
    } else {
      assert s[|a|] == t[0] && s[|a| + |t| - 1] == t[|t| - 1];
      assert SpaceRunEnd(s, 0) == |a|;
      assert SpaceRunStart(s, |a|, |s|) == |a| + |t|;
      assert s[|a|..|a| + |t|] == t;
    }
  }

  /** A string without surrounding whitespace is left as it is. */
  lemma TrimOfTrimmed(s: string)
    requires Trimmed(s)
    ensures Trim(s) == s
  {
    assert [] + s + [] == s;
    TrimUnique([], s, []);
  }

  /** Trimming twice is trimming once. */
  lemma TrimIdempotent(s: string)
    ensures Trim(Trim(s)) == Trim(s)
  {
    var t := Trim(s);
    assert [] + t + [] == t;
    TrimUnique([], t, []);
  }
}
