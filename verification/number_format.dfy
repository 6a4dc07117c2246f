/** The comma utilities of utils/number.ts: `formatNumberWithCommas` and
    `formatNumberWithoutCommas`, for string arguments. */
module NumberFormat {
  import opened Text

  // ---------------------------------------------------------------------
  // formatNumberWithoutCommas: `str.replace(/,/g, "")`
  // ---------------------------------------------------------------------

  /** Every `,` deleted; every other character kept, in order. */
  function RemoveCommas(s: string): (r: string)
    ensures ',' !in r
    ensures |r| <= |s|
    ensures ',' !in s ==> r == s
  {
    if s == [] then []
    else
      assert s == [s[0]] + s[1..];
      (if s[0] == ',' then [] else [s[0]]) + RemoveCommas(s[1..])
  }

  /** Deleting commas commutes with concatenation: the characters of each
      part survive in place. */
  lemma {:induction false} RemoveCommasConcat(a: string, b: string)
    ensures RemoveCommas(a + b) == RemoveCommas(a) + RemoveCommas(b)
  {
    if a == [] {
      assert a + b == b;
    } else {
      assert (a + b)[0] == a[0];
      assert (a + b)[1..] == a[1..] + b;
      RemoveCommasConcat(a[1..], b);
    }
  }

  /** The characters kept are exactly the non-comma characters of `s`,
      each as often as it occurs there. */
  lemma {:induction false} RemoveCommasMultiset(s: string)
    ensures multiset(RemoveCommas(s)) == multiset(s)[',' := 0]
  {
    if s != [] {
      assert s == [s[0]] + s[1..];
      RemoveCommasMultiset(s[1..]);
    }
  }

  /** Stripping twice is stripping once. */
  lemma RemoveCommasIdempotent(s: string)
    ensures RemoveCommas(RemoveCommas(s)) == RemoveCommas(s)
  {
  }

  // ---------------------------------------------------------------------
  // formatNumberWithCommas: `parts[0].replace(/\B(?=(\d{3})+(?!\d))/g, ",")`
  // ---------------------------------------------------------------------

  /** The regular expression's lookahead `(\d{3})+(?!\d)` succeeds at `k`:
      some positive multiple of three digits starts there and is not followed
      by another digit. */
  ghost predicate LookaheadAt(s: string, k: nat)
    requires k <= |s|
  {
    exists e :: k + 3 <= e <= |s| && (e - k) % 3 == 0 && AllDigits(s[k..e])
                && (e == |s| || !IsDigit(s[e]))
  }

  /** The `\B` assertion at `k`: both neighbours are word characters or
      neither is (outside the string counts as a non-word character). */
  predicate NotBoundaryAt(s: string, k: nat)
    requires k <= |s|
  {
    var before := 0 < k && IsWordChar(s[k - 1]);
    var after := k < |s| && IsWordChar(s[k]);
    before == after
  }

  /** A comma goes before position `k`: a digit run whose length is a
      positive multiple of three starts at `k`, right after a word character. */
  predicate CommaBefore(s: string, k: nat)
    requires k <= |s|
  {
    var run := DigitRun(s, k);
    0 < k && IsWordChar(s[k - 1]) && run >= 3 && run % 3 == 0
  }

  /** `CommaBefore` is exactly where the pattern matches. */
  lemma CommaBeforeIsMatch(s: string, k: nat)
    requires k <= |s|
    ensures CommaBefore(s, k) <==> NotBoundaryAt(s, k) && LookaheadAt(s, k)
  {
    var run := DigitRun(s, k);
    if LookaheadAt(s, k) {
      var e :| k + 3 <= e <= |s| && (e - k) % 3 == 0 && AllDigits(s[k..e])
               && (e == |s| || !IsDigit(s[e]));
      assert forall j :: k <= j < e ==> IsDigit(s[j]) by {
        forall j | k <= j < e ensures IsDigit(s[j]) {
          assert s[j] == s[k..e][j - k];
        }
      }
      DigitRunUpTo(s, k, e);
      assert IsDigit(s[k..e][0]);
    }
    if CommaBefore(s, k) {
      assert IsDigit(s[k..k + run][0]);
      assert k + 3 <= k + run <= |s| && AllDigits(s[k..k + run]);
    }
  }

  /** The grouped form of `s[k..]`: each character, preceded by a comma
      wherever `CommaBefore` holds. */
  function GroupFrom(s: string, k: nat): string
    requires k <= |s|
    decreases |s| - k
  {
    if k == |s| then [] else Piece(s, k) + GroupFrom(s, k + 1)
  }

  /** The character at `k`, with the comma that goes before it, if any. */
  function Piece(s: string, k: nat): string
    requires k < |s|
  {
    if CommaBefore(s, k) then [',', s[k]] else [s[k]]
  }

  /** The global replacement on the integer part. */
  function Group(s: string): string {
    GroupFrom(s, 0)
  }

  /** `formatNumberWithCommas(str)` for a string argument: split on `.`,
      group the first piece, join again. */
  function FormatWithCommas(s: string): string {
    var parts := Split(s, '.');
    Join([Group(parts[0])] + parts[1..], '.')
  }

  /** Grouping only inserts commas: deleting commas afterwards gives what
      deleting them before would have given. */
  lemma {:induction false} GroupFromRemoveCommas(s: string, k: nat)
    requires k <= |s|
    ensures RemoveCommas(GroupFrom(s, k)) == RemoveCommas(s[k..])
    decreases |s| - k
  {
    if k < |s| {
      var tail := GroupFrom(s, k + 1);
      GroupFromStep(s, k, Piece(s, k), tail);
      GroupFromRemoveCommas(s, k + 1);
      calc {
        RemoveCommas(GroupFrom(s, k));
        { RemoveCommasConcat(Piece(s, k), tail); }
        RemoveCommas(Piece(s, k)) + RemoveCommas(tail);
        { PieceRemoveCommas(s, k); }
        RemoveCommas([s[k]]) + RemoveCommas(s[k + 1..]);
        { RemoveCommasConcat([s[k]], s[k + 1..]); }
        RemoveCommas([s[k]] + s[k + 1..]);
        { assert s[k..] == [s[k]] + s[k + 1..]; }
        RemoveCommas(s[k..]);
      }
    }
  }

  lemma PieceRemoveCommas(s: string, k: nat)
    requires k < |s|
    ensures RemoveCommas(Piece(s, k)) == RemoveCommas([s[k]])
  {
    if CommaBefore(s, k) {
      assert [',', s[k]] == [','] + [s[k]];
      RemoveCommasConcat([','], [s[k]]);
    }
  }

  /** Split and join cancel: only the text before the first `.` changes. */
  lemma FormatSplitsAtFirstDot(s: string)
    ensures FormatWithCommas(s) == Group(s[..IndexOf(s, '.')]) + s[IndexOf(s, '.')..]
  {
    JoinReplacingFirst(s, '.', Group(s[..IndexOf(s, '.')]));
  }

  /** Only the text before the first `.` is rewritten: what follows is kept
      verbatim, and the rewritten part differs from the original only in
      commas. */
  lemma FormatWithCommasShape(s: string)
    ensures var i := IndexOf(s, '.');
            var r := FormatWithCommas(s);
            && |r| >= |s| - i
            && r[|r| - (|s| - i)..] == s[i..]
            && '.' !in r[..|r| - (|s| - i)]
            && RemoveCommas(r[..|r| - (|s| - i)]) == RemoveCommas(s[..i])
  {
    var i := IndexOf(s, '.');
    var g := Group(s[..i]);
    FormatSplitsAtFirstDot(s);
    var r := FormatWithCommas(s);
    assert r[|r| - (|s| - i)..] == s[i..];
    assert r[..|r| - (|s| - i)] == g;
    GroupFromRemoveCommas(s[..i], 0);
    assert s[..i][0..] == s[..i];
    GroupFromNoDot(s[..i], 0);
  }

  /** Grouping a `.`-free string leaves it `.`-free. */
  lemma {:induction false} GroupFromNoDot(s: string, k: nat)
    requires k <= |s|
    requires '.' !in s
    ensures '.' !in GroupFrom(s, k)
    decreases |s| - k
  {
    if k < |s| {
      GroupFromNoDot(s, k + 1);
    }
  }

  /** Round trip: a comma-free string survives adding and then removing
      the thousands separators. */
  lemma FormatRoundTrip(s: string)
    requires ',' !in s
    ensures RemoveCommas(FormatWithCommas(s)) == s
  {
    var i := IndexOf(s, '.');
    var head, tail := s[..i], s[i..];
    FormatSplitsAtFirstDot(s);
    GroupRemoveCommas(head);
    RemoveCommasConcat(Group(head), tail);
    CommaFreeHalves(s, i);
  }

  lemma GroupRemoveCommas(s: string)
    ensures RemoveCommas(Group(s)) == RemoveCommas(s)
  {
    GroupFromRemoveCommas(s, 0);
    assert s[0..] == s;
  }

  lemma CommaFreeHalves(s: string, i: nat)
    requires ',' !in s && i <= |s|
    ensures RemoveCommas(s[..i]) == s[..i] && RemoveCommas(s[i..]) == s[i..]
    ensures s[..i] + s[i..] == s
  {
    forall j | 0 <= j < i ensures s[..i][j] != ',' {
      assert s[..i][j] == s[j];
    }
    forall j | 0 <= j < |s| - i ensures s[i..][j] != ',' {
      assert s[i..][j] == s[i + j];
    }
  }

  // ---------------------------------------------------------------------
  // The shape of a grouped run of digits
  // ---------------------------------------------------------------------

  /** For an all-digit integer part, a comma goes before position `k`
      exactly when `1 <= k <= |s| - 1` and `|s| - k` is a multiple of three. */
  lemma CommaPositionsInDigits(s: string, k: nat)
    requires AllDigits(s)
    requires k <= |s|
    ensures CommaBefore(s, k) <==> 1 <= k <= |s| - 1 && (|s| - k) % 3 == 0
  {
    DigitRunUpTo(s, k, |s|);
  }

  /** Zero or more blocks, each a comma followed by exactly three digits. */
  predicate CommaBlocks(r: string)
    decreases |r|
  {
    r == [] || (|r| >= 4 && r[0] == ',' && AllDigits(r[1..4]) && CommaBlocks(r[4..]))
  }

  /** Width of the leading group of a run of `n >= 1` digits. */
  function LeadWidth(n: nat): (f: nat)
    requires n >= 1
    ensures 1 <= f <= 3 && f <= n && (n - f) % 3 == 0
  {
    (n - 1) % 3 + 1
  }

  /** `GroupFrom` specialised to a run of digits: the comma positions are
      then fixed by the length alone. */
  function DigitGroupFrom(s: string, k: nat): string
    requires k <= |s|
    decreases |s| - k
  {
    if k == |s| then [] else DigitPiece(s, k) + DigitGroupFrom(s, k + 1)
  }

  function DigitPiece(s: string, k: nat): string
    requires k < |s|
  {
    if 1 <= k && (|s| - k) % 3 == 0 then [',', s[k]] else [s[k]]
  }

  /** On a run of digits the general grouping and the specialised one agree. */
  lemma {:induction false} GroupFromDigits(s: string, k: nat)
    requires AllDigits(s) && k <= |s|
    ensures GroupFrom(s, k) == DigitGroupFrom(s, k)
    decreases |s| - k
  {
    if k < |s| {
      GroupFromDigits(s, k + 1);
      assert Piece(s, k) == DigitPiece(s, k) by {
        CommaPositionsInDigits(s, k);
      }
      GroupFromStep(s, k, DigitPiece(s, k), DigitGroupFrom(s, k + 1));
    }
  }

  /** One step of grouping, from what the piece at `k` and the rest are. */
  lemma GroupFromStep(s: string, k: nat, piece: string, tail: string)
    requires k < |s| && Piece(s, k) == piece && GroupFrom(s, k + 1) == tail
    ensures GroupFrom(s, k) == piece + tail
  {
  }

  /** Grouping all digits of `s` from a position at a multiple of three
      from the end, other than the start, yields whole comma blocks. */
  lemma {:induction false} DigitGroupBlocks(s: string, k: nat)
    requires AllDigits(s)
    requires 1 <= k <= |s| && (|s| - k) % 3 == 0
    ensures CommaBlocks(DigitGroupFrom(s, k))
    decreases |s| - k
  {
    if k < |s| {
      Mod3Next(|s|, k);
      DigitGroupBlocks(s, k + 3);
      var block := [s[k], s[k + 1], s[k + 2]];
      assert AllDigits(block);
      DigitGroupThree(s, k);
      CommaBlocksCons(block, DigitGroupFrom(s, k + 3));
    }
  }

  /** Three steps of grouping from a comma position. */
  lemma DigitGroupThree(s: string, k: nat)
    requires 1 <= k && k + 3 <= |s| && (|s| - k) % 3 == 0
    ensures DigitGroupFrom(s, k) == [','] + [s[k], s[k + 1], s[k + 2]] + DigitGroupFrom(s, k + 3)
  {
    Mod3Step(|s|, k);
    var g3 := DigitGroupFrom(s, k + 3);
    assert DigitGroupFrom(s, k + 2) == [s[k + 2]] + g3;
    assert DigitGroupFrom(s, k + 1) == [s[k + 1]] + ([s[k + 2]] + g3);
    assert DigitGroupFrom(s, k) == [',', s[k]] + ([s[k + 1]] + ([s[k + 2]] + g3));
  }

  lemma Mod3Next(n: int, k: int)
    requires k < n && (n - k) % 3 == 0
    ensures k + 3 <= n && (n - (k + 3)) % 3 == 0
  {
  }

  lemma Mod3Step(n: int, k: int)
    requires (n - k) % 3 == 0
    ensures (n - (k + 1)) % 3 == 2 && (n - (k + 2)) % 3 == 1
  {
  }

  lemma CommaBlocksCons(block: string, rest: string)
    requires |block| == 3 && AllDigits(block) && CommaBlocks(rest)
    ensures CommaBlocks([','] + block + rest)
  {
    var r := [','] + block + rest;
    assert r[1..4] == block;
    assert r[4..] == rest;
  }

  /** The positions before the first comma position. */
  lemma LeadPositions(n: nat, k: nat)
    requires n >= 1 && k < LeadWidth(n)
    ensures k == 0 || (n - k) % 3 != 0
  {
    var q := (n - 1) / 3;
    assert n - 1 == 3 * q + (LeadWidth(n) - 1);
  }

  /** Where no piece carries a comma, grouping copies the characters. */
  lemma {:induction false} DigitGroupPlain(s: string, k: nat, f: nat)
    requires k <= f <= |s|
    requires forall j :: k <= j < f ==> DigitPiece(s, j) == [s[j]]
    ensures DigitGroupFrom(s, k) == s[k..f] + DigitGroupFrom(s, f)
    decreases f - k
  {
    if k < f {
      DigitGroupPlain(s, k + 1, f);
      assert DigitGroupFrom(s, k) == [s[k]] + DigitGroupFrom(s, k + 1);
      assert s[k..f] == [s[k]] + s[k + 1..f];
    }
  }

  /** Before the first comma position nothing is inserted. */
  lemma DigitGroupLead(s: string)
    requires |s| >= 1
    ensures DigitGroupFrom(s, 0) == s[..LeadWidth(|s|)] + DigitGroupFrom(s, LeadWidth(|s|))
  {
    var f := LeadWidth(|s|);
    forall j | 0 <= j < f
      ensures DigitPiece(s, j) == [s[j]]
    {
      LeadPositions(|s|, j);
      DigitPieceInside(s, j);
    }
    DigitGroupPlain(s, 0, f);
  }

  lemma DigitPieceInside(s: string, k: nat)
    requires k < |s| && (k == 0 || (|s| - k) % 3 != 0)
    ensures DigitPiece(s, k) == [s[k]]
  {
  }

  /** The grouped form of a non-empty run of digits: a leading group of one
      to three digits with no comma in front of it, then blocks of a comma
      and exactly three digits; removing the commas gives the run back. */
  lemma GroupDigitsShape(s: string)
    requires AllDigits(s) && |s| >= 1
    ensures var r := Group(s);
            var f := LeadWidth(|s|);
            && |r| >= f
            && r[..f] == s[..f]
            && r[0] != ','
            && CommaBlocks(r[f..])
            && RemoveCommas(r) == s
  {
    var f := LeadWidth(|s|);
    var r := Group(s);
    var rest := DigitGroupFrom(s, f);
    assert r == s[..f] + rest by {
      GroupFromDigits(s, 0);
      DigitGroupLead(s);
    }
    DigitGroupBlocks(s, f);
    assert r[..f] == s[..f];
    assert r[f..] == rest;
    assert IsDigit(s[0]);
    assert RemoveCommas(r) == s by {
      GroupFromRemoveCommas(s, 0);
      assert s[0..] == s;
    }
  }
}
