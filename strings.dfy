/**
 * The PHP string built-ins the request resolution of Snug.class.php is made of:
 * `substr`, `explode`, `implode`, `str_replace`, `strpos`, `trim`, `strtolower`
 * and `strtoupper`, with PHP 8 semantics on the edge cases Snug reaches
 * (a negative length longer than the string gives "", a missing `list()` slot
 * reads as "").
 */
module Strings {
  import opened Wrappers

  /* ---------- occurrences and strpos ---------- */

  /** `d` occurs in `s` starting at index `j`. */
  predicate OccursAt(s: string, d: string, j: nat) {
    j + |d| <= |s| && s[j..j + |d|] == d
  }

  predicate EndsWith(s: string, suffix: string) {
    |suffix| <= |s| && s[|s| - |suffix|..] == suffix
  }

  /** The first index at or after `k` at which `d` occurs in `s`, or None. */
  function IndexFrom(s: string, d: string, k: nat): (r: Option<nat>)
    ensures r.Some? ==> k <= r.value && OccursAt(s, d, r.value)
    ensures forall j: nat :: k <= j < (if r.Some? then r.value else |s| + 1) ==> !OccursAt(s, d, j)
    decreases |s| + 1 - k
  {
    if k + |d| > |s| then None
    else if OccursAt(s, d, k) then Some(k)
    else IndexFrom(s, d, k + 1)
  }

  /** `strpos($s, $d)`: the first index at which `d` occurs in `s`, or None. */
  function IndexOf(s: string, d: string): (r: Option<nat>)
    ensures r.Some? ==> OccursAt(s, d, r.value)
    ensures forall j: nat :: j < (if r.Some? then r.value else |s| + 1) ==> !OccursAt(s, d, j)
  {
    IndexFrom(s, d, 0)
  }

  /** A slice of a text without an occurrence has none either. */
  lemma NoOccurrenceInSlice(s: string, d: string, a: nat, b: nat)
    requires a <= b <= |s| && IndexOf(s, d).None?
    ensures IndexOf(s[a..b], d).None?
  {
    var t := s[a..b];
    forall j: nat | j + |d| <= |t| ensures !OccursAt(t, d, j) {
      assert !OccursAt(s, d, a + j);
      var u, v := t[j..j + |d|], s[a + j..a + j + |d|];
      forall k | 0 <= k < |d| ensures u[k] == v[k] {
        assert u[k] == t[j + k] && v[k] == s[a + j + k];
      }
      assert u == v;
    }
  }

  /** With a one-character needle, strpos finds the first occurrence of that character. */
  lemma IndexOfChar(s: string, c: char)
    ensures IndexOf(s, [c]).None? <==> c !in s
    ensures IndexOf(s, [c]).Some? ==>
              var i := IndexOf(s, [c]).value; i < |s| && s[i] == c && c !in s[..i]
  {
    var r := IndexOf(s, [c]);
    forall j: nat | j < |s|
      ensures OccursAt(s, [c], j) <==> s[j] == c
    {
      assert s[j..j + 1] == [s[j]];
    }
    if r.None? {
      forall j | 0 <= j < |s| ensures s[j] != c {
        assert !OccursAt(s, [c], j);
      }
    } else {
      var i := r.value;
      forall j | 0 <= j < i ensures s[..i][j] != c {
        assert !OccursAt(s, [c], j);
      }
    }
  }

  /** The first occurrence of `c` in `p + [c] + q`, when `p` has none, is right after `p`. */
  lemma IndexOfCharAfter(p: string, c: char, q: string)
    requires c !in p
    ensures IndexOf(p + [c] + q, [c]) == Some(|p|)
  {
    var s := p + [c] + q;
    assert s[|p|] == c;
    IndexOfChar(s, c);
    var i := IndexOf(s, [c]).value;
    assert forall k :: 0 <= k < |p| ==> s[k] == p[k];
  }

  /* ---------- substr ---------- */

  /** `substr($s, 0, -n)`: all but the last `n` characters, "" when `s` is shorter. */
  function DropLast(s: string, n: nat): (r: string)
    ensures |r| == if |s| >= n then |s| - n else 0
    ensures r <= s
  {
    if |s| >= n then s[..|s| - n] else ""
  }

  /** `substr($s, $start)` for a non-negative start: the suffix from `start`, "" past the end. */
  function SubstrFrom(s: string, start: nat): (r: string)
    ensures start <= |s| ==> s == s[..start] + r
    ensures start > |s| ==> r == ""
  {
    if start <= |s| then s[start..] else ""
  }

  /** `substr($s, $start, $len)` for a non-negative start and length. */
  function Substr(s: string, start: nat, len: nat): (r: string)
    ensures |r| <= len
    ensures start <= |s| ==> r <= s[start..]
    ensures start <= |s| ==> |r| == if start + len <= |s| then len else |s| - start
    ensures start > |s| ==> r == ""
  {
    if start >= |s| then ""
    else if start + len <= |s| then s[start..start + len]
    else s[start..]
  }

  /* ---------- strtolower / strtoupper (ASCII, as PHP 8.2 does) ---------- */

  function LowerChar(c: char): char {
    if 'A' <= c <= 'Z' then (c as int + 32) as char else c
  }

  function UpperChar(c: char): char {
    if 'a' <= c <= 'z' then (c as int - 32) as char else c
  }

  /** `strtolower`: the same text with every ASCII capital replaced by its small letter. */
  function ToLower(s: string): (r: string)
    ensures |r| == |s|
    ensures forall i :: 0 <= i < |s| ==> r[i] == LowerChar(s[i])
    ensures forall i :: 0 <= i < |r| ==> !('A' <= r[i] <= 'Z')
  {
    seq(|s|, i requires 0 <= i < |s| => LowerChar(s[i]))
  }

  /** `strtoupper`: the same text with every ASCII small letter replaced by its capital. */
  function ToUpper(s: string): (r: string)
    ensures |r| == |s|
    ensures forall i :: 0 <= i < |s| ==> r[i] == UpperChar(s[i])
    ensures forall i :: 0 <= i < |r| ==> !('a' <= r[i] <= 'z')
  {
    seq(|s|, i requires 0 <= i < |s| => UpperChar(s[i]))
  }

  /* ---------- explode / implode / str_replace ---------- */

  /**
   * `explode($d, $s)`: the pieces of `s` between the occurrences of `d`, found
   * left to right without overlap. PHP refuses an empty delimiter.
   */
  function Explode(d: string, s: string): (parts: seq<string>)
    requires |d| > 0
    ensures |parts| >= 1
    decreases |s|
  {
    match IndexOf(s, d)
    case None => [s]
    case Some(i) => [s[..i]] + Explode(d, s[i + |d|..])
  }

  /** `implode($glue, $parts)`. */
  function Implode(glue: string, parts: seq<string>): string
    decreases |parts|
  {
    if |parts| == 0 then ""
    else if |parts| == 1 then parts[0]
    else parts[0] + glue + Implode(glue, parts[1..])
  }

  /** Element `i` of an exploded list as `list()` reads it: a missing slot is `null`, which reads as "". */
  function Segment(parts: seq<string>, i: nat): string {
    if i < |parts| then parts[i] else ""
  }

  /** `end($parts)`. */
  function Last(parts: seq<string>): string
    requires |parts| > 0
  {
    parts[|parts| - 1]
  }

  /** Joining the pieces of an explode with its own delimiter gives the text back. */
  lemma {:induction false} ImplodeExplode(d: string, s: string)
    requires |d| > 0
    ensures Implode(d, Explode(d, s)) == s
    decreases |s|
  {
    match IndexOf(s, d)
    case None =>
    case Some(i) =>
      var rest := Explode(d, s[i + |d|..]);
      ImplodeExplode(d, s[i + |d|..]);
      assert ([s[..i]] + rest)[1..] == rest;
      assert s == s[..i] + s[i..i + |d|] + s[i + |d|..];
  }

  /** No piece of an explode contains the delimiter. */
  lemma {:induction false} ExplodePartsAvoid(d: string, s: string)
    requires |d| > 0
    ensures forall k :: 0 <= k < |Explode(d, s)| ==> IndexOf(Explode(d, s)[k], d).None?
    decreases |s|
  {
    match IndexOf(s, d)
    case None =>
    case Some(i) =>
      ExplodePartsAvoid(d, s[i + |d|..]);
      var head := s[..i];
      forall j: nat | j + |d| <= |head| ensures OccursAt(head, d, j) == OccursAt(s, d, j) {
        assert head[j..j + |d|] == s[j..j + |d|];
      }
      var parts := Explode(d, s);
      forall k | 0 <= k < |parts| ensures IndexOf(parts[k], d).None? {
        if k > 0 {
          assert parts[k] == Explode(d, s[i + |d|..])[k - 1];
        }
      }
  }

  /** The first piece of `explode` is the text before the first occurrence, or all of it. */
  lemma ExplodeHeadChar(p: string, c: char, q: string)
    requires c !in p
    ensures Explode([c], p + [c] + q)[0] == p
  {
    IndexOfCharAfter(p, c, q);
    assert (p + [c] + q)[..|p|] == p;
  }

  /** Exploding a text that has no delimiter gives that text alone. */
  lemma ExplodeNoDelimiter(c: char, s: string)
    requires c !in s
    ensures Explode([c], s) == [s]
  {
    IndexOfChar(s, c);
  }

  /** `explode('/', '/' . $a . '/' . $b)` is `['', $a, $b]` when neither part holds a `/`. */
  lemma ExplodeThreeSegments(c: char, a: string, b: string)
    requires c !in a && c !in b
    ensures Explode([c], [c] + a + [c] + b) == ["", a, b]
  {
    var s, t := [c] + a + [c] + b, a + [c] + b;
    IndexOfCharAfter([], c, t);
    assert [] + [c] + t == s;
    ExplodeCharStep(c, s, 0);
    assert s[..0] == "" && s[1..] == t;
    IndexOfCharAfter(a, c, b);
    ExplodeCharStep(c, t, |a|);
    assert t[..|a|] == a && t[|a| + 1..] == b;
    ExplodeNoDelimiter(c, b);
  }

  /** `l` is the text after the last `c` in `s`, or all of `s` when it has no `c`. */
  predicate IsLastPiece(c: char, s: string, l: string) {
    && c !in l
    && (l == s || (|l| < |s| && s[|s| - |l| - 1] == c && s[|s| - |l|..] == l))
  }

  lemma ExplodeCharStep(c: char, s: string, i: nat)
    requires IndexOf(s, [c]) == Some(i)
    ensures i < |s| && Explode([c], s) == [s[..i]] + Explode([c], s[i + 1..])
  {
    var found := IndexOf(s, [c]);
    assert found.value == i;
    var rest := s[i + 1..];
    assert rest == s[found.value + |[c]|..];
    ExplodeUnfold([c], s);
  }

  /** Explode unfolded once, at the first occurrence strpos reports. */
  lemma ExplodeUnfold(d: string, s: string)
    requires |d| > 0 && IndexOf(s, d).Some?
    ensures var i := IndexOf(s, d).value;
            Explode(d, s) == [s[..i]] + Explode(d, s[i + |d|..])
  {
  }

  /** A last piece stays the last piece when text ending in the delimiter is put in front. */
  lemma LastPieceExtend(c: char, u: string, t: string, l: string)
    requires |u| > 0 && u[|u| - 1] == c
    requires IsLastPiece(c, t, l)
    ensures IsLastPiece(c, u + t, l)
  {
    var s := u + t;
    assert s[|s| - |l|..] == t[|t| - |l|..];
    if l == t {
      assert s[|s| - |l| - 1] == u[|u| - 1];
    } else {
      assert s[|s| - |l| - 1] == t[|t| - |l| - 1];
    }
  }

  /** The last piece of `explode([c], s)` is the text after the last `c`. */
  lemma {:induction false} ExplodeLast(c: char, s: string)
    ensures IsLastPiece(c, s, Last(Explode([c], s)))
    decreases |s|
  {
    match IndexOf(s, [c])
    case None =>
      IndexOfChar(s, c);
    case Some(i) =>
      ExplodeCharStep(c, s, i);
      var t := s[i + 1..];
      var u := s[..i + 1];
      assert u[i] == c by {
        assert OccursAt(s, [c], i);
        assert s[i..i + 1][0] == s[i];
      }
      var e := Explode([c], t);
      assert Last(Explode([c], s)) == Last(e) by {
        assert ([s[..i]] + e)[|e|] == e[|e| - 1];
      }
      ExplodeLast(c, t);
      assert s == u + t;
      LastPieceExtend(c, u, t, Last(e));
  }

  /**
   * `str_replace($search, $rep, $s)`: every occurrence of `search`, found left to
   * right without overlap, replaced by `rep`.
   */
  function StrReplace(search: string, rep: string, s: string): string
    requires |search| > 0
    decreases |s|
  {
    match IndexOf(s, search)
    case None => s
    case Some(i) => s[..i] + rep + StrReplace(search, rep, s[i + |search|..])
  }

  /** A text that lacks some character of `search` has no occurrence, and str_replace leaves it alone. */
  lemma StrReplaceAbsent(search: string, rep: string, s: string, m: nat)
    requires m < |search| && search[m] !in s
    ensures IndexOf(s, search).None?
    ensures StrReplace(search, rep, s) == s
  {
    forall j: nat | j + |search| <= |s| ensures !OccursAt(s, search, j) {
      assert s[j..j + |search|][m] == s[j + m];
    }
  }

  /** An occurrence at the very start is replaced, and a rest lacking a character of `search` is kept. */
  lemma StrReplaceAtStart(search: string, rep: string, q: string, m: nat)
    requires |search| > 0
    requires m < |search| && search[m] !in q
    ensures StrReplace(search, rep, search + q) == rep + q
  {
    var t := search + q;
    assert t[0..|search|] == search;
    assert OccursAt(t, search, 0);
    StrReplaceStep(search, rep, t, 0);
    assert t[..0] == [] && t[|search|..] == q;
    StrReplaceAbsent(search, rep, q, m);
  }

  /**
   * A single occurrence is replaced once: nothing before it can start one,
   * and the text after it lacks some character of `search`.
   */
  lemma StrReplaceOnce(search: string, rep: string, p: string, q: string, m: nat)
    requires |search| > 0 && search[0] !in p
    requires m < |search| && search[m] !in q
    ensures StrReplace(search, rep, p + (search + q)) == p + (rep + q)
  {
    StrReplaceSkipsPrefix(search, rep, p, search + q);
    StrReplaceAtStart(search, rep, q, m);
  }

  /** str_replace is implode over explode: the pieces between occurrences, rejoined with `rep`. */
  lemma {:induction false} StrReplaceIsImplodeExplode(search: string, rep: string, s: string)
    requires |search| > 0
    ensures StrReplace(search, rep, s) == Implode(rep, Explode(search, s))
    decreases |s|
  {
    match IndexOf(s, search)
    case None =>
    case Some(i) =>
      var rest := Explode(search, s[i + |search|..]);
      StrReplaceIsImplodeExplode(search, rep, s[i + |search|..]);
      assert ([s[..i]] + rest)[1..] == rest;
  }

  /** A character found neither in the text nor in the replacement is not in the result. */
  lemma {:induction false} StrReplaceKeepsOut(search: string, rep: string, s: string, c: char)
    requires |search| > 0
    requires c !in s && c !in rep
    ensures c !in StrReplace(search, rep, s)
    decreases |s|
  {
    match IndexOf(s, search)
    case None =>
    case Some(i) =>
      StrReplaceStep(search, rep, s, i);
      var t := s[i + |search|..];
      NotInSlice(s, c, i + |search|, |s|);
      StrReplaceKeepsOut(search, rep, t, c);
      NotInSlice(s, c, 0, i);
      assert s[0..i] == s[..i];
  }

  /** A character missing from a text is missing from each of its slices. */
  lemma NotInSlice(s: string, c: char, a: nat, b: nat)
    requires a <= b <= |s| && c !in s
    ensures c !in s[a..b]
  {
    var u := s[a..b];
    forall k | 0 <= k < |u| ensures u[k] != c {
      assert u[k] == s[a + k];
    }
  }

  /** An occurrence of `d` cannot start inside a prefix that lacks `d`'s first character. */
  lemma IndexOfAfterPrefix(d: string, p: string, t: string)
    requires |d| > 0
    requires d[0] !in p
    ensures IndexOf(t, d).None? ==> IndexOf(p + t, d).None?
    ensures IndexOf(t, d).Some? ==> IndexOf(p + t, d).Some? && IndexOf(p + t, d).value == |p| + IndexOf(t, d).value
  {
    var s := p + t;
    forall j: nat | j < |p| ensures !OccursAt(s, d, j) {
      assert s[j] == p[j];
      if j + |d| <= |s| {
        assert s[j..j + |d|][0] == s[j];
      }
    }
    forall j: nat | |p| <= j ensures OccursAt(s, d, j) == OccursAt(t, d, j - |p|) {
      if j + |d| <= |s| {
        assert s[j..j + |d|] == t[j - |p|..j - |p| + |d|];
      }
    }
    if IndexOf(t, d).Some? {
      assert OccursAt(s, d, |p| + IndexOf(t, d).value);
    }
  }

  /** One step of str_replace: everything before the first occurrence, the replacement, then the rest replaced. */
  lemma StrReplaceStep(search: string, rep: string, s: string, i: nat)
    requires |search| > 0 && IndexOf(s, search) == Some(i)
    ensures i + |search| <= |s|
    ensures StrReplace(search, rep, s) == s[..i] + rep + StrReplace(search, rep, s[i + |search|..])
  {
    var found := IndexOf(s, search);
    assert found.value == i;
    var rest := s[i + |search|..];
    assert rest == s[found.value + |search|..];
    StrReplaceUnfold(search, rep, s);
  }

  /** StrReplace unfolded once, at the first occurrence strpos reports. */
  lemma StrReplaceUnfold(search: string, rep: string, s: string)
    requires |search| > 0 && IndexOf(s, search).Some?
    ensures var i := IndexOf(s, search).value;
            StrReplace(search, rep, s) == s[..i] + rep + StrReplace(search, rep, s[i + |search|..])
  {
  }

  /**
   * A prefix that does not hold the first character of `search` cannot hold the
   * start of an occurrence, so str_replace leaves it untouched.
   */
  lemma {:induction false} StrReplaceSkipsPrefix(search: string, rep: string, p: string, t: string)
    requires |search| > 0
    requires search[0] !in p
    ensures StrReplace(search, rep, p + t) == p + StrReplace(search, rep, t)
  {
    var s := p + t;
    var d := search;
    IndexOfAfterPrefix(d, p, t);
    match IndexOf(t, d)
    case None =>
    case Some(j) =>
      var i := |p| + j;
      assert IndexOf(s, d) == Some(i);
      assert s[i + |d|..] == t[j + |d|..];
      StrReplaceStep(d, rep, s, i);
      StrReplaceStep(d, rep, t, j);
      assert s[..i] == p + t[..j];
      Regroup(p, t[..j], rep, StrReplace(d, rep, t[j + |d|..]));
  }

  /** Regrouping a concatenation of four texts. */
  lemma Regroup(p: string, a: string, b: string, c: string)
    ensures p + a + b + c == p + (a + b + c)
  {
  }

  /** When the text and the replacement start with the same character, so does the result. */
  lemma StrReplaceKeepsFirst(search: string, rep: string, t: string)
    requires |search| > 0
    requires |t| > 0 && |rep| > 0 && t[0] == rep[0]
    ensures var r := StrReplace(search, rep, t); |r| > 0 && r[0] == t[0]
  {
  }

  /* ---------- trim ---------- */

  /** The characters PHP's `trim` strips by default: space, tab, LF, CR, NUL and vertical tab. */
  predicate IsTrimChar(c: char) {
    c == ' ' || c == '\t' || c == '\n' || c == '\r' || c as int == 0 || c as int == 11
  }

  /** Neither end of `s` is a character `trim` strips. */
  predicate IsTrimmed(s: string) {
    |s| == 0 || (!IsTrimChar(s[0]) && !IsTrimChar(s[|s| - 1]))
  }

  predicate AllTrimChars(s: string) {
    forall i :: 0 <= i < |s| ==> IsTrimChar(s[i])
  }

  /** `r` is the piece of `s` at index `i`, with only strippable characters around it. */
  predicate TrimmedFrom(s: string, r: string, i: nat) {
    && i + |r| <= |s| && r == s[i..i + |r|]
    && (forall m :: 0 <= m < i ==> IsTrimChar(s[m]))
    && (forall m :: i + |r| <= m < |s| ==> IsTrimChar(s[m]))
  }

  /** The first index at or after `i` that holds no strippable character, or `|s|`. */
  function SkipLeft(s: string, i: nat): (k: nat)
    requires i <= |s|
    ensures i <= k <= |s|
    ensures forall m :: i <= m < k ==> IsTrimChar(s[m])
    ensures k < |s| ==> !IsTrimChar(s[k])
    decreases |s| - i
  {
    if i < |s| && IsTrimChar(s[i]) then SkipLeft(s, i + 1) else i
  }

  /** The end, at or before `j` and not before `lo`, once the strippable characters before `j` are skipped. */
  function SkipRight(s: string, lo: nat, j: nat): (k: nat)
    requires lo <= j <= |s|
    ensures lo <= k <= j
    ensures forall m :: k <= m < j ==> IsTrimChar(s[m])
    ensures k > lo ==> !IsTrimChar(s[k - 1])
    decreases j
  {
    if j > lo && IsTrimChar(s[j - 1]) then SkipRight(s, lo, j - 1) else j
  }

  /**
   * `trim($s)`: the middle of `s` that is left once the strippable characters
   * at both ends are removed.
   */
  function Trim(s: string): (r: string)
    ensures IsTrimmed(r)
    ensures TrimmedFrom(s, r, SkipLeft(s, 0))
  {
    var i := SkipLeft(s, 0);
    s[i..SkipRight(s, i, |s|)]
  }

  /** SkipLeft stops at the first character that is not strippable. */
  lemma {:induction false} SkipLeftAt(s: string, i: nat, k: nat)
    requires i <= k <= |s|
    requires forall m :: i <= m < k ==> IsTrimChar(s[m])
    requires k < |s| ==> !IsTrimChar(s[k])
    ensures SkipLeft(s, i) == k
    decreases k - i
  {
    if i < k {
      SkipLeftAt(s, i + 1, k);
    }
  }

  /** SkipRight stops behind the last character that is not strippable. */
  lemma {:induction false} SkipRightAt(s: string, lo: nat, j: nat, k: nat)
    requires lo <= k <= j <= |s|
    requires forall m :: k <= m < j ==> IsTrimChar(s[m])
    requires k > lo ==> !IsTrimChar(s[k - 1])
    ensures SkipRight(s, lo, j) == k
    decreases j - k
  {
    if k < j {
      SkipRightAt(s, lo, j - 1, k);
    }
  }

  /** Text between strippable characters trims to itself: what `trim` keeps is determined. */
  lemma TrimOf(a: string, r: string, b: string)
    requires AllTrimChars(a) && AllTrimChars(b) && IsTrimmed(r) && |r| > 0
    ensures Trim(a + r + b) == r
  {
    var s := a + r + b;
    assert forall m :: 0 <= m < |a| ==> s[m] == a[m];
    assert s[|a|] == r[0];
    SkipLeftAt(s, 0, |a|);
    assert forall m :: |a| + |r| <= m < |s| ==> s[m] == b[m - |a| - |r|];
    assert s[|a| + |r| - 1] == r[|r| - 1];
    SkipRightAt(s, |a|, |s|, |a| + |r|);
    assert s[|a|..|a| + |r|] == r;
  }

  /** Text made only of strippable characters trims to "". */
  lemma TrimAllTrimChars(s: string)
    requires AllTrimChars(s)
    ensures Trim(s) == ""
  {
    SkipLeftAt(s, 0, |s|);
  }

  /** Trimming text that is already trimmed changes nothing. */
  lemma TrimTrimmed(s: string)
    requires IsTrimmed(s)
    ensures Trim(s) == s
  {
    if |s| > 0 {
      TrimOf("", s, "");
      assert "" + s + "" == s;
    } else {
      TrimAllTrimChars(s);
    }
  }

  /** `trim` removes a line break on either side of trimmed text. */
  lemma TrimNewlineAround(s: string)
    requires IsTrimmed(s)
    ensures Trim(s + "\n") == s
    ensures Trim("\n" + s) == s
  {
    if |s| > 0 {
      TrimOf("", s, "\n");
      assert "" + s + "\n" == s + "\n";
      TrimOf("\n", s, "");
      assert "\n" + s + "" == "\n" + s;
    } else {
      assert s + "\n" == "\n" && "\n" + s == "\n";
      TrimAllTrimChars("\n");
    }
  }

  /** Trimming is idempotent. */
  lemma TrimIdempotent(s: string)
    ensures Trim(Trim(s)) == Trim(s)
  {
    TrimTrimmed(Trim(s));
  }
}
