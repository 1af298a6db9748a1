/** Choosing a machine's key: its name, with a numeric suffix while the key is taken. */
module MachineKey {
  import opened Wrappers

  const MAX_KEY: nat := 63

  function Digits(n: nat): (s: string)
    ensures s != [] && forall c :: c in s ==> '0' <= c <= '9'
  {
    var last := ('0' as int + n % 10) as char;
    if n < 10 then [last] else Digits(n / 10) + [last]
  }

  lemma {:induction false} DigitsAreInjective(m: nat, n: nat)
    requires Digits(m) == Digits(n)
    ensures m == n
  {
    var a, b := Digits(m), Digits(n);
    assert a[|a| - 1] == b[|b| - 1];
    assert m % 10 == n % 10;
    if m >= 10 && n >= 10 {
      assert a[..|a| - 1] == Digits(m / 10) && b[..|b| - 1] == Digits(n / 10);
      DigitsAreInjective(m / 10, n / 10);
    }
  }

  /** The number that decimal digits stand for. */
  function ValueOf(digits: string): int {
    if digits == [] then 0 else 10 * ValueOf(digits[..|digits| - 1]) + (digits[|digits| - 1] as int - '0' as int)
  }

  /** A number's digits are its decimal digits, without a zero in front. */
  lemma {:induction false} DigitsAreDecimal(n: nat)
    ensures ValueOf(Digits(n)) == n && (n > 0 ==> Digits(n)[0] != '0') && (n == 0 ==> Digits(n) == "0")
  {
    var d := Digits(n);
    if n < 10 {
      assert d[..|d| - 1] == [];
    } else {
      DigitsAreDecimal(n / 10);
      assert d[..|d| - 1] == Digits(n / 10);
    }
  }

  lemma {:induction false} DigitsGrow(m: nat, n: nat)
    requires m <= n
    ensures |Digits(m)| <= |Digits(n)|
  {
    if m >= 10 {
      DigitsGrow(m / 10, n / 10);
    }
  }

  function StripDashes(s: string): (r: string)
    ensures r <= s
  {
    if s != [] && s[|s| - 1] == '-' then StripDashes(s[..|s| - 1]) else s
  }

  function Ending(suffix: nat): string {
    "-" + Digits(suffix)
  }

  /** The key tried with a suffix; the first one tried is the base itself. */
  function Suffixed(base: string, suffix: nat): string
    requires suffix >= 1 && (suffix > 1 ==> |Ending(suffix)| <= MAX_KEY)
  {
    if suffix == 1 then base
    else
      var room := MAX_KEY - |Ending(suffix)|;
      StripDashes(if |base| <= room then base else base[..room]) + Ending(suffix)
  }

  /** The string without its dashes at the end. */
  lemma {:induction false} StripDashesIs(stem: string, dashes: string)
    requires (stem == "" || stem[|stem| - 1] != '-') && forall c :: c in dashes ==> c == '-'
    ensures StripDashes(stem + dashes) == stem
    decreases |dashes|
  {
    if dashes == "" {
      assert stem + dashes == stem;
    } else {
      assert (stem + dashes)[..|stem + dashes| - 1] == stem + dashes[..|dashes| - 1];
      var fewer := dashes[..|dashes| - 1];
      assert dashes[|dashes| - 1] in dashes;
      forall c | c in fewer ensures c == '-' { assert c in dashes; }
      StripDashesIs(stem, fewer);
    }
  }

  /**
   The first key is the base; a later one is the base, cut to what leaves room for a dash and the
   suffix within 63 characters and without the dashes at its end, a dash, and the suffix.
   */
  lemma SuffixedIs(base: string, suffix: nat, stem: string, dashes: string)
    requires suffix >= 2 && |Digits(suffix)| + 1 <= 63
    requires var room := 63 - 1 - |Digits(suffix)|;
      (if |base| <= room then base else base[..room]) == stem + dashes
    requires (stem == "" || stem[|stem| - 1] != '-') && forall c :: c in dashes ==> c == '-'
    ensures Suffixed(base, 1) == base
    ensures Suffixed(base, suffix) == stem + ("-" + Digits(suffix))
  {
    hide Digits, StripDashes;
    StripDashesIs(stem, dashes);
  }

  /** What follows the last dash. */
  function AfterDash(s: string): string {
    if s == [] || s[|s| - 1] == '-' then [] else AfterDash(s[..|s| - 1]) + [s[|s| - 1]]
  }

  lemma {:induction false} AfterDashOfEnding(stem: string, digits: string)
    requires '-' !in digits
    ensures AfterDash(stem + "-" + digits) == digits
    decreases |digits|
  {
    var s := stem + "-" + digits;
    if digits != [] {
      var n := |digits| - 1;
      assert s[..|s| - 1] == stem + "-" + digits[..n];
      AfterDashOfEnding(stem, digits[..n]);
    }
  }

  /** Different suffixes from two up give different keys. */
  lemma SuffixesDiffer(base: string, a: nat, b: nat)
    requires 2 <= a && 2 <= b && |Ending(a)| <= MAX_KEY && |Ending(b)| <= MAX_KEY
    requires Suffixed(base, a) == Suffixed(base, b)
    ensures a == b
  {
    var roomA, roomB := MAX_KEY - |Ending(a)|, MAX_KEY - |Ending(b)|;
    var stemA := StripDashes(if |base| <= roomA then base else base[..roomA]);
    var stemB := StripDashes(if |base| <= roomB then base else base[..roomB]);
    assert Suffixed(base, a) == stemA + "-" + Digits(a) && Suffixed(base, b) == stemB + "-" + Digits(b);
    AfterDashOfEnding(stemA, Digits(a));
    AfterDashOfEnding(stemB, Digits(b));
    DigitsAreInjective(a, b);
  }

  /** The base ends in what the suffix would append, and is so long that appending it cuts just that off. */
  predicate EndsLikeSuffix(base: string, b: nat) {
    && MAX_KEY - 1 <= |base| && |Ending(b)| <= |base|
    && base[|base| - |Ending(b)|..] == Ending(b)
    && (|base| == |Ending(b)| || base[|base| - |Ending(b)| - 1] != '-')
  }

  lemma {:induction false} StrippedEndsWithoutDash(s: string)
    ensures StripDashes(s) == [] || StripDashes(s)[|StripDashes(s)| - 1] != '-'
  {
    if s != [] && s[|s| - 1] == '-' {
      StrippedEndsWithoutDash(s[..|s| - 1]);
    }
  }

  lemma EndingEndsInDigit(b: nat)
    ensures |Ending(b)| >= 2 && Ending(b)[0] == '-' && forall i :: 1 <= i < |Ending(b)| ==> Ending(b)[i] != '-'
  {
    forall i | 1 <= i < |Ending(b)| ensures Ending(b)[i] != '-' {
      assert Ending(b)[i] in Digits(b);
    }
  }

  /** The first key tried and a later one coincide exactly for such bases. */
  lemma CoincideIff(base: string, b: nat)
    requires 0 < |base| <= MAX_KEY && b >= 2 && |Ending(b)| <= MAX_KEY
    ensures Suffixed(base, 1) == Suffixed(base, b) <==> EndsLikeSuffix(base, b)
  {
    var e := Ending(b);
    var room := MAX_KEY - |e|;
    var cut := if |base| <= room then base else base[..room];
    hide Digits, StripDashes;
    EndingEndsInDigit(b);
    StrippedEndsWithoutDash(cut);
    if StripDashes(cut) + e == base {
      SameKeyMeansEnding(base, e, cut);
    }
    if EndsLikeSuffix(base, b) {
      CutBack(base, e);
    }
  }

  /** Cutting such a base and stripping it leaves what precedes the suffix. */
  lemma CutBack(base: string, e: string)
    requires |e| >= 2 && e[0] == '-' && |e| <= |base| && MAX_KEY - 1 <= |base| <= MAX_KEY
    requires base[|base| - |e|..] == e && (|base| == |e| || base[|base| - |e| - 1] != '-')
    ensures base == StripDashes(base[..MAX_KEY - |e|]) + e
  {
    var stem := base[..|base| - |e|];
    assert base == stem + e;
    assert base[..MAX_KEY - |e|] == if |base| == MAX_KEY then stem else stem + "-";
    assert (stem + "-")[..|stem|] == stem;
  }

  lemma SameKeyMeansEnding(base: string, e: string, cut: string)
    requires |e| >= 2 && e[0] == '-' && forall i :: 1 <= i < |e| ==> e[i] != '-'
    requires |e| <= MAX_KEY && |base| <= MAX_KEY && base == StripDashes(cut) + e
    requires cut == if |base| <= MAX_KEY - |e| then base else base[..MAX_KEY - |e|]
    ensures MAX_KEY - 1 <= |base| && base[|base| - |e|..] == e
    ensures |base| == |e| || base[|base| - |e| - 1] != '-'
  {
    var stem := StripDashes(cut);
    StrippedEndsWithoutDash(cut);
    assert base[|stem|..] == e;
    assert forall i :: |stem| <= i < |cut| ==> cut[i] == e[i - |stem|];
  }

  /** The keys tried with the suffixes from two to below n. */
  ghost function Tried(base: string, n: nat): (keys: set<string>)
    requires n >= 2 && (n > 2 ==> |Ending(n - 1)| <= MAX_KEY)
    ensures |keys| == n - 2
    ensures forall k :: k in keys ==> exists i: nat :: 2 <= i < n && |Ending(i)| <= MAX_KEY && k == Suffixed(base, i)
  {
    if n == 2 then {}
    else
      DigitsGrow(n - 2, n - 1);
      var earlier, key := Tried(base, n - 1), Suffixed(base, n - 1);
      KeyIsNew(base, n - 1, earlier);
      earlier + {key}
  }

  lemma KeyIsNew(base: string, n: nat, earlier: set<string>)
    requires n >= 2 && |Ending(n)| <= MAX_KEY
    requires forall k :: k in earlier ==> exists i: nat :: 2 <= i < n && |Ending(i)| <= MAX_KEY && k == Suffixed(base, i)
    ensures Suffixed(base, n) !in earlier
  {
    if Suffixed(base, n) in earlier {
      var i: nat :| 2 <= i < n && |Ending(i)| <= MAX_KEY && Suffixed(base, n) == Suffixed(base, i);
      SuffixesDiffer(base, i, n);
    }
  }

  /**
   Tries one suffix after another until a key is free; with n keys taken that happens within n + 2
   attempts.
   */
  method AllocateKey(base: string, taken: set<string>) returns (key: string, attempts: nat)
    requires 0 < |base| <= MAX_KEY && |Ending(|taken| + 2)| <= MAX_KEY
    ensures key !in taken && 0 < |key| <= 63 && 1 <= attempts <= |taken| + 2
    ensures attempts <= |taken| + 1 || exists b :: 2 <= b < attempts && EndsLikeSuffix(base, b)
    ensures |Ending(attempts)| <= MAX_KEY && key == Suffixed(base, attempts)
    ensures forall i :: 1 <= i < attempts ==> |Ending(i)| <= MAX_KEY && Suffixed(base, i) in taken
  {
    var suffix := 1;
    DigitsGrow(1, |taken| + 2);
    while true
      invariant 1 <= suffix <= |taken| + 2 && |Ending(suffix)| <= MAX_KEY
      invariant forall i :: 1 <= i < suffix ==> |Ending(i)| <= MAX_KEY && Suffixed(base, i) in taken
      decreases |taken| + 2 - suffix
    {
      key := Suffixed(base, suffix);
      if key !in taken {
        if suffix > 1 { SpareAttempt(base, taken, suffix - 1); }
        return key, suffix;
      }
      EnoughAttempts(base, taken, suffix);
      DigitsGrow(suffix + 1, |taken| + 2);
      suffix := suffix + 1;
    }
  }

  lemma EnoughAttempts(base: string, taken: set<string>, suffix: nat)
    requires 1 <= suffix && forall i :: 1 <= i <= suffix ==> |Ending(i)| <= MAX_KEY && Suffixed(base, i) in taken
    ensures suffix < |taken| + 2
  {
    assert |Ending(suffix)| <= MAX_KEY;
    if suffix >= 2 {
      var tried := Tried(base, suffix + 1);
      SubsetIsSmaller(tried, taken);
    }
  }

  lemma FirstKeyIsBase(base: string)
    ensures Suffixed(base, 1) == base
  {
  }

  /** Without a coincidence every attempt tries a key of its own, so none needs to be spared. */
  lemma SpareAttempt(base: string, taken: set<string>, suffix: nat)
    requires 0 < |base| <= MAX_KEY && 1 <= suffix
    requires forall i :: 1 <= i <= suffix ==> |Ending(i)| <= MAX_KEY && Suffixed(base, i) in taken
    ensures suffix <= |taken| || exists b :: 2 <= b <= suffix && EndsLikeSuffix(base, b)
  {
    hide EndsLikeSuffix, Suffixed, Digits;
    assert |Ending(suffix)| <= MAX_KEY;
    if forall b :: 2 <= b <= suffix ==> !EndsLikeSuffix(base, b) {
      var later := Tried(base, suffix + 1);
      if base in later {
        var i: nat :| 2 <= i < suffix + 1 && |Ending(i)| <= MAX_KEY && base == Suffixed(base, i);
        CoincideIff(base, i);
      }
      FirstKeyIsBase(base);
      SubsetIsSmaller(later + {base}, taken);
    }
  }
}
