/**
 The random password generators, for every outcome of the random source: a stream of arbitrary 32-bit
 draws, and the arbitrary positions the final shuffle swaps with.
 */
module PasswordGenerator {
  import opened Prelude
  import opened PasswordStrength

  const LOWERCASE := "abcdefghijkmnpqrstuvwxyz"
  const UPPERCASE := "ABCDEFGHJKLMNPQRSTUVWXYZ"
  const DIGITS := "23456789"
  const SPECIAL := "!#$*+-=?@^_~"

  datatype GenerateError = BadLength | PolicyTooLong | NoCharTypes

  type Draw = x: nat | x < 0x1_0000_0000

  class Rng {
    const draws: nat -> Draw
    var used: nat

    constructor (draws: nat -> Draw)
      ensures this.draws == draws && used == 0
    {
      this.draws, used := draws, 0;
    }

    method NextU32() returns (x: Draw)
      modifies this
      ensures x == draws(old(used)) && used == old(used) + 1
    {
      x := draws(used);
      used := used + 1;
    }
  }

  method RandomFromSlice(rng: Rng, choices: string) returns (c: char)
    requires choices != ""
    modifies rng
    ensures c == choices[rng.draws(old(rng.used)) % |choices|] && rng.used == old(rng.used) + 1
  {
    var x := rng.NextU32();
    c := choices[x % |choices|];
  }

  /** The characters picked from an alphabet by `count` draws. */
  function Picked(alphabet: string, draws: nat -> Draw, from: nat, count: nat): (s: string)
    requires alphabet != ""
    ensures |s| == count && DrawnFrom(s, alphabet)
  {
    seq(count, k requires 0 <= k < count => alphabet[draws(from + k) % |alphabet|])
  }

  /** How many characters of the password come from the given alphabet. */
  function CountIn(password: string, alphabet: string): nat {
    if password == "" then 0
    else CountIn(password[..|password| - 1], alphabet) + Bit(password[|password| - 1] in alphabet)
  }

  lemma {:induction false} CountAppends(a: string, b: string, alphabet: string)
    ensures CountIn(a + b, alphabet) == CountIn(a, alphabet) + CountIn(b, alphabet)
  {
    if b == "" {
      assert a + b == a;
    } else {
      var n := |b| - 1;
      assert (a + b)[..|a| + n] == a + b[..n];
      CountAppends(a, b[..n], alphabet);
    }
  }

  predicate DrawnFrom(s: string, alphabet: string) {
    forall c :: c in s ==> c in alphabet
  }

  lemma {:induction false} CountOfDrawn(s: string, alphabet: string)
    requires DrawnFrom(s, alphabet)
    ensures CountIn(s, alphabet) == |s|
  {
    if s != "" {
      CountOfDrawn(s[..|s| - 1], alphabet);
    }
  }

  /** Push `count` random characters of one alphabet. */
  method PushRandom(rng: Rng, buffer: string, count: nat, alphabet: string) returns (longer: string)
    requires alphabet != ""
    modifies rng
    ensures longer == buffer + Picked(alphabet, rng.draws, old(rng.used), count)
    ensures rng.used == old(rng.used) + count
  {
    longer := buffer;
    for i := 0 to count
      invariant longer == buffer + Picked(alphabet, rng.draws, old(rng.used), i)
      invariant rng.used == old(rng.used) + i
    {
      var c := RandomFromSlice(rng, alphabet);
      assert Picked(alphabet, rng.draws, old(rng.used), i + 1) == Picked(alphabet, rng.draws, old(rng.used), i) + [c];
      longer := longer + [c];
    }
  }

  function Swapped(s: string, i: nat, j: nat): (r: string)
    requires i <= j < |s|
    ensures multiset(r) == multiset(s) && |r| == |s|
  {
    s[i := s[j]][j := s[i]]
  }

  /** The shuffle of the first `i` characters: from the end down, swap each with one at or before it. */
  function Shuffled(s: string, swaps: nat -> nat, i: nat): (r: string)
    requires i <= |s|
    ensures |r| == |s| && multiset(r) == multiset(s)
    decreases i
  {
    if i <= 1 then s else Shuffled(Swapped(s, swaps(i - 1) % i, i - 1), swaps, i - 1)
  }

  /** The in-place shuffle; `swaps` gives the position each index is swapped with. */
  method Shuffle(password: string, swaps: nat -> nat) returns (shuffled: string)
    ensures shuffled == Shuffled(password, swaps, |password|)
  {
    shuffled := password;
    var i: nat := |password|;
    while i > 1
      invariant i <= |shuffled| == |password|
      invariant Shuffled(password, swaps, |password|) == Shuffled(shuffled, swaps, i)
    {
      i := i - 1;
      var j := swaps(i) % (i + 1);
      shuffled := shuffled[j := shuffled[i]][i := shuffled[j]];
    }
  }

  lemma {:induction false} ShuffledDependsOn(s: string, f: nat -> nat, g: nat -> nat, i: nat)
    requires i <= |s| && forall n: nat :: n < i ==> f(n) == g(n)
    ensures Shuffled(s, f, i) == Shuffled(s, g, i)
    decreases i
  {
    if i > 1 {
      ShuffledDependsOn(Swapped(s, f(i - 1) % i, i - 1), f, g, i - 1);
    }
  }

  /** The first `i` characters are a rearrangement of the target's, the others are the target's own. */
  predicate Unsettled(s: string, target: string, i: nat) {
    i <= |s| == |target| && s[i..] == target[i..] && multiset(s[..i]) == multiset(target[..i])
  }

  lemma WhollyUnsettled(s: string, target: string)
    requires multiset(s) == multiset(target)
    ensures Unsettled(s, target, |s|)
  {
    assert |multiset(s)| == |s| && |multiset(target)| == |target|;
    assert s[..|s|] == s && target[..|s|] == target;
  }

  /** Every permutation is reached: for any rearrangement there are swaps that make the shuffle end in it. */
  lemma {:induction false} ShuffleReaches(s: string, target: string, i: nat) returns (swaps: nat -> nat)
    requires i <= |s| && Unsettled(s, target, i)
    ensures Shuffled(s, swaps, i) == target
    decreases i
  {
    hide Swapped, Unsettled;
    if i <= 1 {
      swaps := (n: nat) => 0;
      SettledIsTarget(s, target, i);
    } else {
      hide Shuffled;
      var j := SourceOfLast(s, target, i);
      var rest := ShuffleReaches(Swapped(s, j, i - 1), target, i - 1);
      swaps := SwapFirst(rest, i - 1, j);
      ShuffledDependsOn(Swapped(s, j, i - 1), swaps, rest, i - 1);
      ShuffledStep(s, swaps, i, j);
    }
  }

  function SwapFirst(swaps: nat -> nat, i: nat, j: nat): (r: nat -> nat)
    ensures r(i) == j && forall n: nat :: n < i ==> r(n) == swaps(n)
  {
    (n: nat) => if n == i then j else swaps(n)
  }

  lemma ShuffledStep(s: string, swaps: nat -> nat, i: nat, j: nat)
    requires 1 < i <= |s| && j < i && swaps(i - 1) == j
    ensures Shuffled(s, swaps, i) == Shuffled(Swapped(s, j, i - 1), swaps, i - 1)
  {
    assert swaps(i - 1) % i == j;
    hide Swapped;
  }

  lemma SettledIsTarget(s: string, target: string, i: nat)
    requires i <= 1 && Unsettled(s, target, i)
    ensures s == target
  {
    if i == 1 {
      assert s[..1] == [s[0]] && target[..1] == [target[0]];
      assert s[0] in multiset(target[..1]);
    }
    assert s == s[..i] + s[i..] && target == target[..i] + target[i..];
  }

  /** The position of the character that belongs last, and what swapping it there leaves to do. */
  lemma SourceOfLast(s: string, target: string, i: nat) returns (j: nat)
    requires 1 < i <= |s| && Unsettled(s, target, i)
    ensures j < i && Unsettled(Swapped(s, j, i - 1), target, i - 1)
  {
    var last := target[i - 1];
    SplitLast(target, i);
    assert last in multiset(target[..i]);
    assert last in s[..i];
    j :| 0 <= j < i && s[j] == last;
    var next := Swapped(s, j, i - 1);
    SwapWithin(s, j, i - 1, i);
    SwappedTail(s, j, i - 1);
    hide Swapped;
    SplitLast(next, i);
    Cancel(multiset(next[..i - 1]), multiset(target[..i - 1]), last);
    SplitTail(next, i - 1);
    SplitTail(target, i - 1);
  }

  lemma SplitLast(s: string, i: nat)
    requires 0 < i <= |s|
    ensures multiset(s[..i]) == multiset(s[..i - 1]) + multiset{s[i - 1]}
  {
    assert s[..i] == s[..i - 1] + [s[i - 1]];
  }

  lemma SplitTail(s: string, i: nat)
    requires i < |s|
    ensures s[i..] == [s[i]] + s[i + 1..]
  {
  }

  lemma SwappedTail(s: string, a: nat, b: nat)
    requires a <= b < |s|
    ensures Swapped(s, a, b)[b] == s[a] && Swapped(s, a, b)[b + 1..] == s[b + 1..]
  {
  }

  lemma SwapWithin(s: string, a: nat, b: nat, i: nat)
    requires a <= b < i <= |s|
    ensures multiset(Swapped(s, a, b)[..i]) == multiset(s[..i])
  {
    assert Swapped(s, a, b)[..i] == Swapped(s[..i], a, b);
  }

  lemma CountWithout(s: string, k: nat, alphabet: string)
    requires k < |s|
    ensures CountIn(s, alphabet) == CountIn(s[..k] + s[k + 1..], alphabet) + Bit(s[k] in alphabet)
    ensures multiset(s) == multiset(s[..k] + s[k + 1..]) + multiset{s[k]}
  {
    assert s == s[..k] + [s[k]] + s[k + 1..];
    assert [s[k]][..0] == "" && CountIn([s[k]], alphabet) == Bit(s[k] in alphabet);
    hide CountIn, Bit;
    CountAppends(s[..k] + [s[k]], s[k + 1..], alphabet);
    CountAppends(s[..k], [s[k]], alphabet);
    CountAppends(s[..k], s[k + 1..], alphabet);
  }

  lemma {:induction false} CountIsPermutationInvariant(a: string, b: string, alphabet: string)
    requires multiset(a) == multiset(b)
    ensures CountIn(a, alphabet) == CountIn(b, alphabet)
    decreases |a|
  {
    if a == "" {
      assert |multiset(b)| == 0;
    } else {
      hide CountIn, Bit;
      assert a[0] in multiset(b);
      var k :| 0 <= k < |b| && b[k] == a[0];
      var shorter, rest := a[..0] + a[1..], b[..k] + b[k + 1..];
      CountWithout(a, 0, alphabet);
      CountWithout(b, k, alphabet);
      Cancel(multiset(shorter), multiset(rest), a[0]);
      CountIsPermutationInvariant(shorter, rest, alphabet);
    }
  }

  /** How many characters of each class a password must have. */
  datatype Minimums = Minimums(lowercase: nat, uppercase: nat, digits: nat, special: nat) {
    function Sum(): nat { lowercase + uppercase + digits + special }
  }

  /** The runs of characters a draft is made of. */
  datatype Pieces = Pieces(lower: string, upper: string, digits: string, special: string, filling: string) {
    function All(): string { lower + upper + digits + special + filling }

    predicate Fit(m: Minimums, charset: string) {
      && |lower| == m.lowercase && DrawnFrom(lower, LOWERCASE) && |upper| == m.uppercase && DrawnFrom(upper, UPPERCASE)
      && |digits| == m.digits && DrawnFrom(digits, DIGITS) && |special| == m.special && DrawnFrom(special, SPECIAL)
      && DrawnFrom(filling, charset)
    }
  }

  /** The required characters, class by class. */
  function Required(m: Minimums, draws: nat -> Draw, from: nat): (s: string)
    ensures |s| == m.Sum()
  {
    var upper := from + m.lowercase;
    var digits := upper + m.uppercase;
    var special := digits + m.digits;
    Picked(LOWERCASE, draws, from, m.lowercase) + Picked(UPPERCASE, draws, upper, m.uppercase)
    + Picked(DIGITS, draws, digits, m.digits) + Picked(SPECIAL, draws, special, m.special)
  }

  /** The password before it is shuffled: the required characters, then the filling. */
  function Drafted(m: Minimums, charset: string, length: nat, draws: nat -> Draw, from: nat): (s: string)
    requires charset != "" && m.Sum() <= length
    ensures |s| == length
  {
    Required(m, draws, from) + Picked(charset, draws, from + m.Sum(), length - m.Sum())
  }

  /** Push the required characters of a policy. */
  method PushRequired(rng: Rng, m: Minimums) returns (required: string)
    modifies rng
    ensures required == Required(m, rng.draws, old(rng.used)) && rng.used == old(rng.used) + m.Sum()
  {
    AlphabetSizes();
    hide LOWERCASE, UPPERCASE, DIGITS, SPECIAL, Picked;
    required := PushRandom(rng, "", m.lowercase, LOWERCASE);
    required := PushRandom(rng, required, m.uppercase, UPPERCASE);
    required := PushRandom(rng, required, m.digits, DIGITS);
    required := PushRandom(rng, required, m.special, SPECIAL);
  }

  const SAFE: string := LOWERCASE + UPPERCASE + DIGITS + SPECIAL

  /** A password over a charset that meets the minimums. */
  predicate Meets(password: string, m: Minimums, charset: string) {
    && DrawnFrom(password, charset)
    && CountIn(password, LOWERCASE) >= m.lowercase && CountIn(password, UPPERCASE) >= m.uppercase
    && CountIn(password, DIGITS) >= m.digits && CountIn(password, SPECIAL) >= m.special
  }

  /**
   `generate_random_password_with_policy`: an error exactly when the length is out of range or the
   minimums do not fit; otherwise the shuffled draft, a password of that length over the safe
   alphabet that meets all four minimums.
   */
  method GenerateWithPolicy(rng: Rng, swaps: nat -> nat, length: nat, m: Minimums)
    returns (result: Result<string, GenerateError>)
    modifies rng
    ensures result == Err(BadLength) <==> !(4 <= length <= 128)
    ensures result == Err(PolicyTooLong) <==> 4 <= length <= 128 && m.Sum() > length
    ensures result.Err? ==> !result.error.NoCharTypes?
    ensures result.Ok? ==> result.value == Shuffled(Drafted(m, SAFE, length, rng.draws, old(rng.used)), swaps, length)
    ensures result.Ok? ==> |result.value| == length && Meets(result.value, m, SAFE)
  {
    AlphabetSizes();
    hide LOWERCASE, UPPERCASE, DIGITS, SPECIAL, SAFE, Picked, Shuffled, Meets, HoldsAlphabets, DrawnFrom, Required;
    if !(4 <= length <= 128) {
      return Err(BadLength);
    }
    var required := m.Sum();
    if required > length {
      return Err(PolicyTooLong);
    }
    var pieces := PushRequired(rng, m);
    var password := PushRandom(rng, pieces, length - required, SAFE);
    assert password == Drafted(m, SAFE, length, rng.draws, old(rng.used));
    var shuffled := Shuffle(password, swaps);
    SafeHoldsAlphabets();
    DraftMeets(m, SAFE, length, rng.draws, old(rng.used));
    MeetsWhenShuffled(password, shuffled, m, SAFE);
    result := Ok(shuffled);
  }

  /** The charset has the alphabet of every class with a minimum. */
  predicate HoldsAlphabets(charset: string, m: Minimums) {
    && (m.lowercase > 0 ==> DrawnFrom(LOWERCASE, charset)) && (m.uppercase > 0 ==> DrawnFrom(UPPERCASE, charset))
    && (m.digits > 0 ==> DrawnFrom(DIGITS, charset)) && (m.special > 0 ==> DrawnFrom(SPECIAL, charset))
  }

  lemma SafeHoldsAlphabets()
    ensures forall m :: HoldsAlphabets(SAFE, m)
    ensures SAFE == Alphabet(true, true, true, true)
  {
    hide LOWERCASE, UPPERCASE, DIGITS, SPECIAL;
  }

  lemma DraftMeets(m: Minimums, charset: string, length: nat, draws: nat -> Draw, from: nat)
    requires charset != "" && m.Sum() <= length && HoldsAlphabets(charset, m)
    ensures Meets(Drafted(m, charset, length, draws, from), m, charset)
  {
    AlphabetSizes();
    hide LOWERCASE, UPPERCASE, DIGITS, SPECIAL, Picked, Meets, DrawnFrom;
    var upper := from + m.lowercase;
    var digits := upper + m.uppercase;
    var special := digits + m.digits;
    var pieces := Pieces(
      Picked(LOWERCASE, draws, from, m.lowercase), Picked(UPPERCASE, draws, upper, m.uppercase),
      Picked(DIGITS, draws, digits, m.digits), Picked(SPECIAL, draws, special, m.special),
      Picked(charset, draws, from + m.Sum(), length - m.Sum()));
    PiecesMeet(pieces, m, charset);
  }

  lemma PiecesMeet(p: Pieces, m: Minimums, charset: string)
    requires p.Fit(m, charset) && HoldsAlphabets(charset, m)
    ensures Meets(p.All(), m, charset)
  {
    hide LOWERCASE, UPPERCASE, DIGITS, SPECIAL, CountIn;
    CountInPieces(p, LOWERCASE);
    CountInPieces(p, UPPERCASE);
    CountInPieces(p, DIGITS);
    CountInPieces(p, SPECIAL);
    CountOfDrawn(p.lower, LOWERCASE);
    CountOfDrawn(p.upper, UPPERCASE);
    CountOfDrawn(p.digits, DIGITS);
    CountOfDrawn(p.special, SPECIAL);
    forall c | c in p.All() ensures c in charset {
      assert p.lower == "" || p.lower[0] in p.lower;
    }
  }

  lemma CountInPieces(p: Pieces, alphabet: string)
    ensures CountIn(p.All(), alphabet)
         == CountIn(p.lower, alphabet) + CountIn(p.upper, alphabet) + CountIn(p.digits, alphabet)
            + CountIn(p.special, alphabet) + CountIn(p.filling, alphabet)
  {
    hide CountIn;
    CountAppends(p.lower + p.upper + p.digits + p.special, p.filling, alphabet);
    CountAppends(p.lower + p.upper + p.digits, p.special, alphabet);
    CountAppends(p.lower + p.upper, p.digits, alphabet);
    CountAppends(p.lower, p.upper, alphabet);
  }

  lemma MeetsWhenShuffled(a: string, b: string, m: Minimums, charset: string)
    requires multiset(a) == multiset(b) && Meets(a, m, charset)
    ensures Meets(b, m, charset)
  {
    hide LOWERCASE, UPPERCASE, DIGITS, SPECIAL, CountIn;
    SameCharacters(a, b);
    CountIsPermutationInvariant(a, b, LOWERCASE);
    CountIsPermutationInvariant(a, b, UPPERCASE);
    CountIsPermutationInvariant(a, b, DIGITS);
    CountIsPermutationInvariant(a, b, SPECIAL);
  }

  // ---------------------------------------------------------------------------
  // Every admissible password can be generated
  // ---------------------------------------------------------------------------

  /** Take `k` characters of an alphabet out of a password that has that many. */
  lemma {:induction false} TakeOut(s: string, alphabet: string, k: nat) returns (taken: string, rest: string)
    requires CountIn(s, alphabet) >= k
    ensures |taken| == k && DrawnFrom(taken, alphabet)
    ensures multiset(taken) + multiset(rest) == multiset(s)
    decreases |s|
  {
    if k == 0 {
      taken, rest := "", s;
    } else {
      var n := |s| - 1;
      assert s == s[..n] + [s[n]];
      if s[n] in alphabet {
        taken, rest := TakeOut(s[..n], alphabet, k - 1);
        taken := taken + [s[n]];
      } else {
        taken, rest := TakeOut(s[..n], alphabet, k);
        rest := rest + [s[n]];
      }
    }
  }

  /** What is taken from one alphabet leaves the count of a disjoint one as it was. */
  lemma TakenLeavesOthers(s: string, taken: string, rest: string, alphabet: string, other: string)
    requires multiset(taken) + multiset(rest) == multiset(s) && DrawnFrom(taken, alphabet)
    requires forall c :: c in alphabet ==> c !in other
    ensures CountIn(rest, other) == CountIn(s, other)
  {
    assert multiset(taken + rest) == multiset(s);
    CountIsPermutationInvariant(taken + rest, s, other);
    CountAppends(taken, rest, other);
    NoneCounted(taken, other);
  }

  lemma {:induction false} NoneCounted(s: string, alphabet: string)
    requires forall c :: c in s ==> c !in alphabet
    ensures CountIn(s, alphabet) == 0
  {
    if s != "" {
      NoneCounted(s[..|s| - 1], alphabet);
    }
  }

  lemma AlphabetsAreDisjoint()
    ensures forall c :: c in LOWERCASE ==> c !in UPPERCASE && c !in DIGITS && c !in SPECIAL
    ensures forall c :: c in UPPERCASE ==> c !in DIGITS && c !in SPECIAL
    ensures forall c :: c in DIGITS ==> c !in SPECIAL
  {
    hide LOWERCASE, UPPERCASE, DIGITS, SPECIAL;
    forall c { AlphabetsAreClasses(c); }
  }

  function IndexIn(alphabet: string, c: char): (i: nat)
    requires c in alphabet
    ensures i < |alphabet| && alphabet[i] == c
  {
    if alphabet[0] == c then 0 else 1 + IndexIn(alphabet[1..], c)
  }

  predicate PickedAs(s: string, alphabet: string, draws: nat -> Draw, from: nat) {
    forall k: nat :: k < |s| ==> draws(from + k) < |alphabet| && alphabet[draws(from + k)] == s[k]
  }

  /** Draws that pick a given string from an alphabet, placed anywhere in the stream. */
  lemma PicksReach(s: string, alphabet: string, draws: nat -> Draw, from: nat)
    requires alphabet != "" && PickedAs(s, alphabet, draws, from)
    ensures Picked(alphabet, draws, from, |s|) == s
  {
  }

  /** The draws that make the draft come out as these pieces. */
  function DrawsFor(p: Pieces, m: Minimums, charset: string): nat -> Draw
    requires p.Fit(m, charset) && |charset| < 0x1_0000_0000
  {
    var u := m.lowercase;
    var d := u + m.uppercase;
    var s := d + m.digits;
    var f := s + m.special;
    (n: nat) => (
      if n < u then IndexOf(p.lower, LOWERCASE, n)
      else if n < d then IndexOf(p.upper, UPPERCASE, n - u)
      else if n < s then IndexOf(p.digits, DIGITS, n - d)
      else if n < f then IndexOf(p.special, SPECIAL, n - s)
      else if n < f + |p.filling| then IndexOf(p.filling, charset, n - f)
      else 0)
  }

  function IndexOf(s: string, alphabet: string, k: nat): (x: Draw)
    requires k < |s| && DrawnFrom(s, alphabet) && |alphabet| < 0x1_0000_0000
    ensures x < |alphabet| && alphabet[x] == s[k]
  {
    assert s[k] in s;
    IndexIn(alphabet, s[k])
  }

  lemma DrawsPick(p: Pieces, m: Minimums, charset: string)
    requires p.Fit(m, charset) && |charset| < 0x1_0000_0000
    ensures var draws, d := DrawsFor(p, m, charset), m.lowercase + m.uppercase;
            && PickedAs(p.lower, LOWERCASE, draws, 0) && PickedAs(p.upper, UPPERCASE, draws, m.lowercase)
            && PickedAs(p.digits, DIGITS, draws, d) && PickedAs(p.special, SPECIAL, draws, d + m.digits)
            && PickedAs(p.filling, charset, draws, m.Sum())
  {
    AlphabetSizes();
    hide LOWERCASE, UPPERCASE, DIGITS, SPECIAL, IndexOf, DrawnFrom;
    var draws, u, d := DrawsFor(p, m, charset), m.lowercase, m.lowercase + m.uppercase;
    var s, f := d + m.digits, m.Sum();
    assert PickedAs(p.lower, LOWERCASE, draws, 0);
    assert PickedAs(p.upper, UPPERCASE, draws, u) by {
      forall k: nat | k < |p.upper| ensures draws(u + k) == IndexOf(p.upper, UPPERCASE, k) {
        assert u + k - u == k;
      }
    }
    assert PickedAs(p.digits, DIGITS, draws, d) by {
      forall k: nat | k < |p.digits| ensures draws(d + k) == IndexOf(p.digits, DIGITS, k) {
        assert d + k - d == k;
      }
    }
    assert PickedAs(p.special, SPECIAL, draws, s) by {
      forall k: nat | k < |p.special| ensures draws(s + k) == IndexOf(p.special, SPECIAL, k) {
        assert s + k - s == k;
      }
    }
    assert PickedAs(p.filling, charset, draws, f) by {
      forall k: nat | k < |p.filling| ensures draws(f + k) == IndexOf(p.filling, charset, k) {
        assert f + k - f == k;
      }
    }
  }

  /** Any draft of fitting pieces can be drawn. */
  lemma DraftReaches(p: Pieces, m: Minimums, charset: string)
    requires p.Fit(m, charset) && charset != "" && |charset| < 0x1_0000_0000
    ensures Drafted(m, charset, m.Sum() + |p.filling|, DrawsFor(p, m, charset), 0) == p.All()
  {
    AlphabetSizes();
    DrawsPick(p, m, charset);
    hide LOWERCASE, UPPERCASE, DIGITS, SPECIAL, DrawnFrom, PickedAs, DrawsFor, Picked;
    var draws, d := DrawsFor(p, m, charset), m.lowercase + m.uppercase;
    PicksReach(p.lower, LOWERCASE, draws, 0);
    PicksReach(p.upper, UPPERCASE, draws, m.lowercase);
    PicksReach(p.digits, DIGITS, draws, d);
    PicksReach(p.special, SPECIAL, draws, d + m.digits);
    PicksReach(p.filling, charset, draws, m.Sum());
  }

  /** A password that meets the minimums is a rearrangement of fitting pieces. */
  lemma TakeApart(password: string, m: Minimums, charset: string) returns (p: Pieces)
    requires Meets(password, m, charset)
    ensures p.Fit(m, charset) && multiset(p.All()) == multiset(password)
  {
    AlphabetsAreDisjoint();
    hide LOWERCASE, UPPERCASE, DIGITS, SPECIAL, CountIn;
    var lower, r1 := TakeOut(password, LOWERCASE, m.lowercase);
    TakenLeavesOthers(password, lower, r1, LOWERCASE, UPPERCASE);
    TakenLeavesOthers(password, lower, r1, LOWERCASE, DIGITS);
    TakenLeavesOthers(password, lower, r1, LOWERCASE, SPECIAL);
    var upper, r2 := TakeOut(r1, UPPERCASE, m.uppercase);
    TakenLeavesOthers(r1, upper, r2, UPPERCASE, DIGITS);
    TakenLeavesOthers(r1, upper, r2, UPPERCASE, SPECIAL);
    var digits, r3 := TakeOut(r2, DIGITS, m.digits);
    TakenLeavesOthers(r2, digits, r3, DIGITS, SPECIAL);
    var special, filling := TakeOut(r3, SPECIAL, m.special);
    p := Pieces(lower, upper, digits, special, filling);
    hide DrawnFrom;
    FillingIsDrawn(p, password, charset) by {
      assert multiset(p.All())
        == multiset(lower) + multiset(upper) + multiset(digits) + multiset(special) + multiset(filling);
    }
  }

  lemma FillingIsDrawn(p: Pieces, password: string, charset: string)
    requires multiset(p.All()) == multiset(password) && DrawnFrom(password, charset)
    ensures DrawnFrom(p.filling, charset)
  {
    SameCharacters(p.All(), password);
    forall c | c in p.filling ensures c in charset {
      assert c in p.All();
    }
  }

  /**
   The generators leave nothing out: every password over the charset that meets the minimums is the
   outcome of some draws and some shuffle.
   */
  lemma EveryAdmissiblePasswordIsReached(password: string, m: Minimums, charset: string)
    returns (draws: nat -> Draw, swaps: nat -> nat)
    requires Meets(password, m, charset) && charset != "" && |charset| < 0x1_0000_0000
    ensures m.Sum() <= |password|
    ensures Shuffled(Drafted(m, charset, |password|, draws, 0), swaps, |password|) == password
  {
    hide LOWERCASE, UPPERCASE, DIGITS, SPECIAL, DrawnFrom, Meets, Drafted, Shuffled, DrawsFor;
    var p := TakeApart(password, m, charset);
    draws := DrawsFor(p, m, charset);
    DraftReaches(p, m, charset);
    WhollyUnsettled(p.All(), password);
    assert |multiset(password)| == |password| && |multiset(p.All())| == |p.All()|;
    hide Unsettled;
    swaps := ShuffleReaches(p.All(), password, |password|);
  }

  // ---------------------------------------------------------------------------
  // Character types
  // ---------------------------------------------------------------------------

  function Alphabet(uppercase: bool, lowercase: bool, digits: bool, symbols: bool): string {
    (if lowercase then LOWERCASE else "") + (if uppercase then UPPERCASE else "")
    + (if digits then DIGITS else "") + (if symbols then SPECIAL else "")
  }

  /** One character of each enabled type. */
  function OneOfEach(uppercase: bool, lowercase: bool, digits: bool, symbols: bool): Minimums {
    Minimums(Bit(lowercase), Bit(uppercase), Bit(digits), Bit(symbols))
  }

  /** A password over the enabled alphabets that uses each of them. */
  predicate UsesExactly(password: string, uppercase: bool, lowercase: bool, digits: bool, symbols: bool) {
    && DrawnFrom(password, Alphabet(uppercase, lowercase, digits, symbols))
    && (lowercase ==> exists c :: c in password && c in LOWERCASE)
    && (uppercase ==> exists c :: c in password && c in UPPERCASE)
    && (digits ==> exists c :: c in password && c in DIGITS)
    && (symbols ==> exists c :: c in password && c in SPECIAL)
  }

  function Enabled(uppercase: bool, lowercase: bool, digits: bool, symbols: bool): nat {
    Bit(uppercase) + Bit(lowercase) + Bit(digits) + Bit(symbols)
  }

  /** One random character of each enabled type. */
  method RequireEach(rng: Rng, uppercase: bool, lowercase: bool, digits: bool, symbols: bool) returns (required: string)
    modifies rng
    ensures var m := OneOfEach(uppercase, lowercase, digits, symbols);
            required == Required(m, rng.draws, old(rng.used)) && rng.used == old(rng.used) + m.Sum()
  {
    AlphabetSizes();
    hide LOWERCASE, UPPERCASE, DIGITS, SPECIAL, Picked, Bit;
    var lower := RequireOne(rng, lowercase, LOWERCASE);
    var upper := RequireOne(rng, uppercase, UPPERCASE);
    var digit := RequireOne(rng, digits, DIGITS);
    var symbol := RequireOne(rng, symbols, SPECIAL);
    required := lower + upper + digit + symbol;
  }

  /** One character of an enabled type, nothing for a disabled one. */
  method RequireOne(rng: Rng, enabled: bool, alphabet: string) returns (piece: string)
    requires alphabet != ""
    modifies rng
    ensures piece == Picked(alphabet, rng.draws, old(rng.used), Bit(enabled))
      && rng.used == old(rng.used) + Bit(enabled)
  {
    piece := "";
    if enabled {
      var c := RandomFromSlice(rng, alphabet);
      piece := [c];
    }
  }

  /** Using each enabled type is having one character of it. */
  lemma UsesExactlyIff(password: string, uppercase: bool, lowercase: bool, digits: bool, symbols: bool)
    ensures UsesExactly(password, uppercase, lowercase, digits, symbols) <==>
            Meets(password, OneOfEach(uppercase, lowercase, digits, symbols),
              Alphabet(uppercase, lowercase, digits, symbols))
  {
    hide LOWERCASE, UPPERCASE, DIGITS, SPECIAL, CountIn, Alphabet;
    CountedIffOccurs(password, LOWERCASE);
    CountedIffOccurs(password, UPPERCASE);
    CountedIffOccurs(password, DIGITS);
    CountedIffOccurs(password, SPECIAL);
  }

  method GenerateWithCharTypes(rng: Rng, swaps: nat -> nat, length: nat,
                               uppercase: bool, lowercase: bool, digits: bool, symbols: bool)
    returns (result: Result<string, GenerateError>)
    modifies rng
    ensures result == Err(BadLength) <==> !(4 <= length <= 128)
    ensures result == Err(NoCharTypes) <==> 4 <= length <= 128 && Enabled(uppercase, lowercase, digits, symbols) == 0
    ensures result.Err? ==> !result.error.PolicyTooLong?
    ensures result.Ok? ==>
              var m, charset :=
                OneOfEach(uppercase, lowercase, digits, symbols), Alphabet(uppercase, lowercase, digits, symbols);
              && charset != "" && m.Sum() <= length
              && result.value == Shuffled(Drafted(m, charset, length, rng.draws, old(rng.used)), swaps, length)
    ensures result.Ok? ==> |result.value| == length && UsesExactly(result.value, uppercase, lowercase, digits, symbols)
  {
    AlphabetSizes();
    EnabledAlphabet(uppercase, lowercase, digits, symbols);
    EnabledAlphabetHolds(uppercase, lowercase, digits, symbols);
    hide LOWERCASE, UPPERCASE, DIGITS, SPECIAL, SAFE, Alphabet, UsesExactly, Picked, Shuffled,
    Meets, HoldsAlphabets, Required;
    hide DrawnFrom, OneOfEach, Enabled, Bit;
    if !(4 <= length <= 128) {
      return Err(BadLength);
    }
    var required := RequireEach(rng, uppercase, lowercase, digits, symbols);
    var charset := Alphabet(uppercase, lowercase, digits, symbols);
    if charset == "" {
      return Err(NoCharTypes);
    }
    if |required| > length {
      return Err(PolicyTooLong);
    }
    var password := PushRandom(rng, required, length - |required|, charset);
    ghost var m := OneOfEach(uppercase, lowercase, digits, symbols);
    assert password == Drafted(m, charset, length, rng.draws, old(rng.used));
    var shuffled := Shuffle(password, swaps);
    DraftMeets(m, charset, length, rng.draws, old(rng.used));
    MeetsWhenShuffled(password, shuffled, m, charset);
    UsesExactlyIff(shuffled, uppercase, lowercase, digits, symbols);
    result := Ok(shuffled);
  }

  lemma EnabledAlphabetHolds(uppercase: bool, lowercase: bool, digits: bool, symbols: bool)
    ensures HoldsAlphabets(Alphabet(uppercase, lowercase, digits, symbols),
      OneOfEach(uppercase, lowercase, digits, symbols))
  {
    hide LOWERCASE, UPPERCASE, DIGITS, SPECIAL;
  }

  lemma EnabledAlphabet(uppercase: bool, lowercase: bool, digits: bool, symbols: bool)
    ensures Alphabet(uppercase, lowercase, digits, symbols) == "" <==>
      Enabled(uppercase, lowercase, digits, symbols) == 0
    ensures OneOfEach(uppercase, lowercase, digits, symbols).Sum()
      == Enabled(uppercase, lowercase, digits, symbols) <= 4
  {
    AlphabetSizes();
    hide LOWERCASE, UPPERCASE, DIGITS, SPECIAL;
  }

  lemma SameCharacters(a: string, b: string)
    requires multiset(a) == multiset(b)
    ensures forall c :: c in a <==> c in b
  {
    forall c ensures c in a <==> c in b {
      assert c in multiset(a) <==> c in multiset(b);
    }
  }

  /** The meter recognises every alphabet the generator draws from, and tells them apart. */
  lemma AlphabetsAreClasses(c: char)
    ensures c in LOWERCASE ==> IsLower(c) && !IsUpper(c) && !IsDigit(c) && !IsSpecial(c)
    ensures c in UPPERCASE ==> IsUpper(c) && !IsLower(c) && !IsDigit(c) && !IsSpecial(c)
    ensures c in DIGITS ==> IsDigit(c) && !IsLower(c) && !IsUpper(c) && !IsSpecial(c)
    ensures c in SPECIAL ==> IsSpecial(c) && !IsLower(c) && !IsUpper(c) && !IsDigit(c)
  {
  }

  lemma AlphabetsAreAscii(c: char)
    requires c in LOWERCASE || c in UPPERCASE || c in DIGITS || c in SPECIAL
    ensures c as int < 0x80
  {
    AlphabetsAreClasses(c);
    hide LOWERCASE, UPPERCASE, DIGITS, SPECIAL;
  }

  /** The meter counts exactly the enabled types of a generated password. */
  lemma MeterCountsEnabledTypes(password: string, uppercase: bool, lowercase: bool, digits: bool, symbols: bool)
    requires UsesExactly(password, uppercase, lowercase, digits, symbols)
    ensures CharTypes(password) == Enabled(uppercase, lowercase, digits, symbols)
  {
    hide LOWERCASE, UPPERCASE, DIGITS, SPECIAL;
    hide IsLower, IsUpper, IsDigit, IsSpecial;
    forall c | c in password
      ensures IsLower(c) ==> lowercase
      ensures IsUpper(c) ==> uppercase
      ensures IsDigit(c) ==> digits
      ensures IsSpecial(c) ==> symbols
    {
      AlphabetsAreClasses(c);
    }
    if lowercase { var c :| c in password && c in LOWERCASE; AlphabetsAreClasses(c); }
    if uppercase { var c :| c in password && c in UPPERCASE; AlphabetsAreClasses(c); }
    if digits { var c :| c in password && c in DIGITS; AlphabetsAreClasses(c); }
    if symbols { var c :| c in password && c in SPECIAL; AlphabetsAreClasses(c); }
    assert (exists c | c in password :: IsLower(c)) <==> lowercase;
    assert (exists c | c in password :: IsUpper(c)) <==> uppercase;
    assert (exists c | c in password :: IsDigit(c)) <==> digits;
    assert (exists c | c in password :: IsSpecial(c)) <==> symbols;
  }

  lemma AlphabetSizes()
    ensures 0 < |LOWERCASE| <= 26 && 0 < |UPPERCASE| <= 26 && 0 < |DIGITS| <= 10 && 0 < |SPECIAL| <= 12
    ensures 0 < |SAFE| <= 74
  {
  }

  /**
   So the rating of a generated password is a function of the options: with all four types Strong
   from 8 and VeryStrong from 20 characters, with three Fair from 8 to 15, and flagged by the health
   check in every other case, three types at sixteen characters or more included.
   */
  lemma GeneratedRating(password: string, uppercase: bool, lowercase: bool, digits: bool, symbols: bool)
    requires UsesExactly(password, uppercase, lowercase, digits, symbols)
    ensures var types, n, level :=
      Enabled(uppercase, lowercase, digits, symbols), |password|, EvaluateStrength(password).level;
            && (level == VeryStrong <==> types == 4 && n >= 20)
            && (level == Strong <==> types == 4 && 8 <= n <= 19)
            && (level == Fair <==> types == 3 && 8 <= n <= 15)
            && (level == VeryWeak <==> n < 8 || types <= 1)
            && (Flagged(password) <==> n < 8 || types <= 2 || (types == 3 && n >= 16))
  {
    MeterCountsEnabledTypes(password, uppercase, lowercase, digits, symbols);
    forall c | c in password ensures c as int < 0x80 {
      AlphabetsAreAscii(c);
    }
    LengthIsCharsIff(password);
    FlaggedIff(password);
  }

  /** A policy password with a minimum of one of each type is rated by its length alone. */
  lemma PolicyRating(password: string, m: Minimums)
    requires Meets(password, m, SAFE) && m.lowercase >= 1 && m.uppercase >= 1 && m.digits >= 1 && m.special >= 1
    ensures EvaluateStrength(password).level ==
              if |password| >= 20 then VeryStrong else if |password| >= 8 then Strong else VeryWeak
  {
    SafeHoldsAlphabets();
    UsesExactlyIff(password, true, true, true, true);
    hide LOWERCASE, UPPERCASE, DIGITS, SPECIAL, SAFE, EvaluateStrength, CharTypes;
    GeneratedRating(password, true, true, true, true);
  }

  lemma {:induction false} CountedIffOccurs(s: string, alphabet: string)
    ensures CountIn(s, alphabet) >= 1 <==> exists c :: c in s && c in alphabet
  {
    if s != "" {
      var n := |s| - 1;
      CountedIffOccurs(s[..n], alphabet);
      assert s == s[..n] + [s[n]];
    }
  }
}
