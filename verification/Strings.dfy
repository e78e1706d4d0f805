/** Python text: `strip` and decimal numbers. */
module Strings {
  /** `str.isspace`: the white space that `strip` removes. */
  predicate IsBlank(c: char) {
    var n := c as int;
    || 9 <= n <= 13 || 28 <= n <= 32 || n == 0x85 || n == 0xA0 || n == 0x1680 || 0x2000 <= n <= 0x200A
    || n == 0x2028 || n == 0x2029 || n == 0x202F || n == 0x205F || n == 0x3000
  }

  /** The 29 characters, one by one. */
  lemma BlanksAre(c: char)
    ensures IsBlank(c) <==> c as int in {
              9, 10, 11, 12, 13, 28, 29, 30, 31, 32, 0x85, 0xA0, 0x1680,
              0x2000, 0x2001, 0x2002, 0x2003, 0x2004, 0x2005, 0x2006, 0x2007, 0x2008, 0x2009, 0x200A,
              0x2028, 0x2029, 0x202F, 0x205F, 0x3000}
  {
  }

  /** Neither begins nor ends with white space. */
  predicate Trimmed(s: string) {
    s != "" ==> !IsBlank(s[0]) && !IsBlank(s[|s| - 1])
  }

  /** `s.strip()` */
  function Strip(s: string): (t: string)
    ensures Trimmed(t)
    ensures Trimmed(s) ==> t == s
    ensures forall i :: 0 <= i < |t| ==> t[i] in s
  {
    if s == "" then s
    else if IsBlank(s[0]) then Strip(s[1..])
    else if IsBlank(s[|s| - 1]) then Strip(s[..|s| - 1])
    else s
  }

  /** `str(n)` */
  function Decimal(n: nat): (s: string)
    ensures s != "" && Trimmed(s)
  {
    if n < 10 then [('0' as int + n) as char] else Decimal(n / 10) + [('0' as int + n % 10) as char]
  }

  predicate AllBlank(s: string) {
    forall i :: 0 <= i < |s| ==> IsBlank(s[i])
  }

  lemma NothingIsBlank()
    ensures AllBlank("")
  {
  }

  lemma BlankInFront(c: char, before: string)
    requires IsBlank(c) && AllBlank(before)
    ensures AllBlank([c] + before)
  {
  }

  lemma BlankBehind(after: string, c: char)
    requires IsBlank(c) && AllBlank(after)
    ensures AllBlank(after + [c])
  {
  }

  /** What `strip` removes is white space at both ends, and nothing else. */
  lemma {:induction false} StripIsMiddle(s: string) returns (before: string, after: string)
    ensures s == before + Strip(s) + after && AllBlank(before) && AllBlank(after)
    decreases |s|
  {
    hide IsBlank, AllBlank;
    before, after := "", "";
    if s == "" {
      assert AllBlank("") by { NothingIsBlank(); }
    } else if IsBlank(s[0]) {
      before, after := StripIsMiddle(s[1..]);
      BlankInFront(s[0], before);
      assert s == [s[0]] + s[1..];
      before := [s[0]] + before;
    } else if IsBlank(s[|s| - 1]) {
      before, after := StripIsMiddle(s[..|s| - 1]);
      BlankBehind(after, s[|s| - 1]);
      assert s == s[..|s| - 1] + [s[|s| - 1]];
      after := after + [s[|s| - 1]];
    } else {
      NothingIsBlank();
    }
  }

  /** The number that decimal digits write. */
  ghost function NumberOf(s: string): int {
    if s == "" then 0 else 10 * NumberOf(s[..|s| - 1]) + (s[|s| - 1] as int - '0' as int)
  }

  lemma {:induction false} DecimalIsNumber(n: nat)
    ensures NumberOf(Decimal(n)) == n
  {
    if n < 10 {
      assert Decimal(n)[..0] == "";
    } else {
      DecimalIsNumber(n / 10);
      assert Decimal(n)[..|Decimal(n)| - 1] == Decimal(n / 10);
    }
  }
}
