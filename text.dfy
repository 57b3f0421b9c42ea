/** The java.lang.String operations the core relies on, on strings of characters. */
module Text {
  import opened Lists

  /**
   * `Character.isWhitespace`: the ASCII controls U+0009 to U+000D and U+001C to U+001F,
   * and the Unicode space, line and paragraph separators except the three no-break spaces.
   */
  predicate IsWhitespace(c: char)
  {
    var n := c as int;
    (0x09 <= n <= 0x0D) || (0x1C <= n <= 0x20) || n == 0x1680 || (0x2000 <= n <= 0x2006)
    || (0x2008 <= n <= 0x200A) || n == 0x2028 || n == 0x2029 || n == 0x205F || n == 0x3000
  }

  /** `String.isBlank`: empty, or nothing but whitespace. */
  predicate IsBlank(s: string)
  {
    forall i | 0 <= i < |s| :: IsWhitespace(s[i])
  }

  /** What `String.trim` strips from both ends: every character at or below U+0020. */
  predicate IsTrimmable(c: char)
  {
    c as int <= 0x20
  }

  /** The first index at or after `i` whose character is not trimmable, or `|s|`. */
  function LeadFrom(s: string, i: nat): (r: nat)
    requires i <= |s|
    ensures i <= r <= |s|
    ensures forall k | i <= k < r :: IsTrimmable(s[k])
    ensures r < |s| ==> !IsTrimmable(s[r])
    decreases |s| - i
  {
    if i < |s| && IsTrimmable(s[i]) then LeadFrom(s, i + 1) else i
  }

  /** The last index at or below `j`, and above `lead`, that follows a character that is not trimmable, or `lead`. */
  function EndFrom(s: string, lead: nat, j: nat): (r: nat)
    requires lead <= j <= |s|
    ensures lead <= r <= j
    ensures forall k | r <= k < j :: IsTrimmable(s[k])
    ensures r > lead ==> !IsTrimmable(s[r - 1])
  {
    if j > lead && IsTrimmable(s[j - 1]) then EndFrom(s, lead, j - 1) else j
  }

  /** How many characters `trim` strips from the front. */
  function Lead(s: string): (r: nat)
    ensures r <= |s|
  {
    LeadFrom(s, 0)
  }

  /**
   * `String.trim`: the middle of `s` between a trimmable prefix and a trimmable suffix,
   * neither starting nor ending with a trimmable character.
   */
  function Trim(s: string): (r: string)
    ensures Lead(s) + |r| <= |s| && r == s[Lead(s)..Lead(s) + |r|]
    ensures forall k | 0 <= k < Lead(s) :: IsTrimmable(s[k])
    ensures forall k | Lead(s) + |r| <= k < |s| :: IsTrimmable(s[k])
    ensures r != [] ==> !IsTrimmable(r[0]) && !IsTrimmable(r[|r| - 1])
  {
    s[Lead(s)..EndFrom(s, Lead(s), |s|)]
  }

  /** Trimming a string that is already trimmed changes nothing. */
  lemma TrimIdempotent(s: string)
    ensures Trim(Trim(s)) == Trim(s)
  {
    var r := Trim(s);
    if r != [] {
      assert Lead(r) == 0;
      assert EndFrom(r, 0, |r|) == |r|;
    }
    assert r[0..|r|] == r;
  }

  /** `Character.toLowerCase` on the ASCII letters; every other character is kept. */
  function LowerChar(c: char): (r: char)
    ensures !('A' <= r <= 'Z')
    ensures !('A' <= c <= 'Z') ==> r == c
  {
    if 'A' <= c <= 'Z' then (c as int - 'A' as int + 'a' as int) as char else c
  }

  /** `String.toLowerCase`, character by character (ASCII letters only). */
  function ToLower(s: string): (r: string)
    ensures |r| == |s|
    ensures forall i | 0 <= i < |s| :: r[i] == LowerChar(s[i])
  {
    seq(|s|, i requires 0 <= i < |s| => LowerChar(s[i]))
  }

  lemma ToLowerIdempotent(s: string)
    ensures ToLower(ToLower(s)) == ToLower(s)
  {
  }

  /** The pieces of `s` between its spaces: one more piece than there are spaces. */
  function Fields(s: string): (r: seq<string>)
    ensures |r| >= 1
    ensures forall k | 0 <= k < |r| :: ' ' !in r[k]
    ensures Join(r) == s
    decreases |s|
  {
    if ' ' !in s then [s]
    else
      var i := IndexOf(s, ' ');
      var rest := Fields(s[i + 1..]);
      assert s == s[..i] + " " + s[i + 1..];
      [s[..i]] + rest
  }

  /** The pieces put back together with one space between neighbours. */
  function Join(parts: seq<string>): string
  {
    if parts == [] then ""
    else if |parts| == 1 then parts[0]
    else parts[0] + " " + Join(parts[1..])
  }

  /** Drops the empty strings at the end, as `String.split` does. */
  function DropTrailingEmpty(parts: seq<string>): (r: seq<string>)
    ensures |r| <= |parts| && r == parts[..|r|]
    ensures r != [] ==> r[|r| - 1] != ""
    ensures forall k | |r| <= k < |parts| :: parts[k] == ""
  {
    if parts != [] && parts[|parts| - 1] == "" then DropTrailingEmpty(parts[..|parts| - 1]) else parts
  }

  /**
   * `String.split(" ")`: a string without a space is its own single piece; otherwise the
   * pieces between spaces, without the empty ones at the end.
   */
  function Split(s: string): (r: seq<string>)
    ensures ' ' !in s ==> r == [s]
    ensures forall k | 0 <= k < |r| :: ' ' !in r[k]
  {
    if ' ' !in s then [s] else DropTrailingEmpty(Fields(s))
  }

  /** The character of a decimal digit. */
  function DigitChar(d: nat): (r: char)
    requires d < 10
    ensures '0' <= r <= '9'
  {
    ('0' as int + d) as char
  }

  /** `String.format("%d", n)` for a number that is not negative. */
  function NatToString(n: nat): (r: string)
    ensures |r| >= 1
    ensures forall i | 0 <= i < |r| :: '0' <= r[i] <= '9'
  {
    if n < 10 then [DigitChar(n)] else NatToString(n / 10) + [DigitChar(n % 10)]
  }
}
