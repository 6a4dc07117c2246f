/** Character classes and the two string primitives the utilities rely on:
    `String.prototype.split` and `Array.prototype.join` with a one-character
    separator. */
module Text {

  /** The `\d` class of a JavaScript regular expression without the `u` flag. */
  predicate IsDigit(c: char) {
    '0' <= c <= '9'
  }

  /** The `\w` class: the characters on either side of a `\b` boundary. */
  predicate IsWordChar(c: char) {
    IsDigit(c) || 'a' <= c <= 'z' || 'A' <= c <= 'Z' || c == '_'
  }

  predicate AllDigits(s: string) {
    forall i :: 0 <= i < |s| ==> IsDigit(s[i])
  }

  /** Length of the run of digits that starts at position `k`. */
  function DigitRun(s: string, k: nat): (n: nat)
    requires k <= |s|
    ensures k + n <= |s|
    ensures forall j :: k <= j < k + n ==> IsDigit(s[j])
    ensures k + n < |s| ==> !IsDigit(s[k + n])
    decreases |s| - k
  {
    if k < |s| && IsDigit(s[k]) then 1 + DigitRun(s, k + 1) else 0
  }

  /** A run of digits from `k` to `e` that ends at a non-digit or at the
      end of `s` is exactly the digit run at `k`. */
  lemma {:induction false} DigitRunUpTo(s: string, k: nat, e: nat)
    requires k <= e <= |s|
    requires forall j :: k <= j < e ==> IsDigit(s[j])
    requires e < |s| ==> !IsDigit(s[e])
    ensures DigitRun(s, k) == e - k
    decreases e - k
  {
    if k < e {
      DigitRunUpTo(s, k + 1, e);
    }
  }

  /** Position of the first `c` in `s`, or `|s|` when there is none. */
  function IndexOf(s: string, c: char): (i: nat)
    ensures i <= |s|
    ensures i < |s| ==> s[i] == c
    ensures forall j :: 0 <= j < i ==> s[j] != c
  {
    if s == [] then 0
    else if s[0] == c then 0
    else
      assert s == [s[0]] + s[1..];
      1 + IndexOf(s[1..], c)
  }

  /** `s.split(sep)`: the maximal `sep`-free pieces, in order; never empty. */
  function Split(s: string, sep: char): (parts: seq<string>)
    ensures |parts| >= 1
    ensures parts[0] == s[..IndexOf(s, sep)]
    decreases |s|
  {
    var i := IndexOf(s, sep);
    if i == |s| then [s]
    else [s[..i]] + Split(s[i + 1..], sep)
  }

  /** `parts.join(sep)`. */
  function Join(parts: seq<string>, sep: char): (s: string)
    ensures |parts| == 1 ==> s == parts[0]
  {
    if |parts| == 0 then ""
    else if |parts| == 1 then parts[0]
    else parts[0] + [sep] + Join(parts[1..], sep)
  }

  /** Joining the pieces of a split gives back the string that was split. */
  lemma {:induction false} JoinSplit(s: string, sep: char)
    ensures Join(Split(s, sep), sep) == s
    decreases |s|
  {
    var i := IndexOf(s, sep);
    if i < |s| {
      var rest := Split(s[i + 1..], sep);
      var parts := [s[..i]] + rest;
      assert Split(s, sep) == parts;
      assert |parts| >= 2 && parts[0] == s[..i] && parts[1..] == rest;
      assert Join(parts, sep) == s[..i] + [sep] + Join(rest, sep);
      JoinSplit(s[i + 1..], sep);
      assert s == s[..i] + [sep] + s[i + 1..];
    }
  }

  /** Rewriting only the first piece of a split and joining again replaces
      the text before the first `sep` and keeps everything from it onward. */
  lemma JoinReplacingFirst(s: string, sep: char, first: string)
    ensures Join([first] + Split(s, sep)[1..], sep) == first + s[IndexOf(s, sep)..]
  {
    var i := IndexOf(s, sep);
    if i < |s| {
      var rest := Split(s[i + 1..], sep);
      assert Split(s, sep)[1..] == rest;
      JoinAfterFirst(first, rest, sep);
      JoinSplit(s[i + 1..], sep);
      Associate(first, sep, s[i + 1..]);
      assert s[i..] == [sep] + s[i + 1..];
    } else {
      assert [first] + Split(s, sep)[1..] == [first];
    }
  }

  lemma JoinAfterFirst(first: string, rest: seq<string>, sep: char)
    requires |rest| >= 1
    ensures Join([first] + rest, sep) == first + [sep] + Join(rest, sep)
  {
    assert ([first] + rest)[1..] == rest;
  }

  /** Regrouping a concatenation around a separator, as a lemma so that
      `JoinReplacingFirst` can state the one step it needs. */
  lemma Associate(a: string, c: char, b: string)
    ensures a + [c] + b == a + ([c] + b)
  {
  }
}
