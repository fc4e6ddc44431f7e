/** The strength meter: character classes and length decide the level. */
module PasswordStrength {
  datatype Level = VeryWeak | Weak | Fair | Strong | VeryStrong

  datatype Strength = Strength(level: Level, charTypes: nat, barFill: nat)

  const SPECIAL_CHARS := "!#$*+-=?@^_~"

  predicate IsLower(c: char) { 'a' <= c <= 'z' }
  predicate IsUpper(c: char) { 'A' <= c <= 'Z' }
  predicate IsDigit(c: char) { '0' <= c <= '9' }
  predicate IsSpecial(c: char) { c in SPECIAL_CHARS }

  /** The classes are the ASCII letters and digits, listed. */
  lemma ClassesAreListed(c: char)
    ensures IsLower(c) <==> c in "abcdefghijklmnopqrstuvwxyz"
    ensures IsUpper(c) <==> c in "ABCDEFGHIJKLMNOPQRSTUVWXYZ"
    ensures IsDigit(c) <==> c in "0123456789"
    ensures IsSpecial(c) <==> c in "!#$*+-=?@^_~"
  {
  }

  function Bit(b: bool): nat { if b then 1 else 0 }

  function CharTypes(password: string): nat {
    Bit(exists c | c in password :: IsLower(c)) + Bit(exists c | c in password :: IsUpper(c))
    + Bit(exists c | c in password :: IsDigit(c)) + Bit(exists c | c in password :: IsSpecial(c))
  }

  function Grade(length: nat, charTypes: nat): (Level, nat) {
    if length < 8 || charTypes <= 1 then (VeryWeak, 3)
    else if length <= 11 && charTypes <= 2 then (Weak, 6)
    else if length <= 15 && charTypes == 3 then (Fair, 9)
    else if charTypes == 4 && length >= 20 then (VeryStrong, 16)
    else if charTypes == 4 then (Strong, 12)
    else (Weak, 6)
  }

  /** How many bytes UTF-8 takes for a character. */
  function Utf8Bytes(c: char): nat {
    if c as int < 0x80 then 1 else if c as int < 0x800 then 2 else if c as int < 0x1_0000 then 3 else 4
  }

  /** `str::len` counts bytes. */
  function Utf8Length(s: string): nat {
    if s == "" then 0 else Utf8Length(s[..|s| - 1]) + Utf8Bytes(s[|s| - 1])
  }

  function EvaluateStrength(password: string): Strength {
    var charTypes := CharTypes(password);
    var (level, barFill) := Grade(Utf8Length(password), charTypes);
    Strength(level, charTypes, barFill)
  }

  /** Bytes and characters agree exactly for ASCII passwords; otherwise there are more bytes. */
  lemma {:induction false} LengthIsCharsIff(s: string)
    ensures Utf8Length(s) >= |s|
    ensures Utf8Length(s) == |s| <==> forall c :: c in s ==> c as int < 0x80
  {
    if s != "" {
      var front, last := s[..|s| - 1], s[|s| - 1];
      LengthIsCharsIff(front);
      assert s == front + [last];
      assert forall c :: c in s <==> c in front || c == last;
      assert last in s;
    }
  }

  /** A character takes n bytes or fewer exactly if its code point fits in the 7, 11, 16 or 21 bits they carry. */
  lemma BytesCarryBits(c: char)
    ensures 1 <= Utf8Bytes(c) <= 4
    ensures Utf8Bytes(c) <= 1 <==> c as int < 128
    ensures Utf8Bytes(c) <= 2 <==> c as int < 128 * 16
    ensures Utf8Bytes(c) <= 3 <==> c as int < 128 * 16 * 32
  {
  }

  /** The bar shows the level and nothing else. */
  lemma BarShowsLevel(password: string)
    ensures var s := EvaluateStrength(password);
            && (s.level == VeryWeak <==> s.barFill == 3) && (s.level == Weak <==> s.barFill == 6)
            && (s.level == Fair <==> s.barFill == 9) && (s.level == Strong <==> s.barFill == 12)
            && (s.level == VeryStrong <==> s.barFill == 16)
  {
  }

  /** The health check flags these. */
  predicate Flagged(password: string) {
    EvaluateStrength(password).level in {VeryWeak, Weak}
  }

  /** Flagged means: short, or at most two classes, or three classes at sixteen bytes or more. */
  lemma FlaggedIff(password: string)
    ensures var n, types := Utf8Length(password), CharTypes(password);
            Flagged(password) <==> n < 8 || types <= 2 || (types == 3 && n >= 16)
  {
    assert CharTypes(password) <= 4;
  }
}
