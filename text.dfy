/** Whitespace trimming as ECMAScript's String.prototype.trim does it.
    The store trims every title it keeps: new titles and committed edits. */
module Text {

  /** The code points trim removes: the WhiteSpace and LineTerminator
      productions of ECMAScript (tab, vertical tab, form feed, space,
      no-break space, byte order mark, the Zs separators, LF, CR, LS, PS). */
  predicate IsSpace(c: char) {
    c == '\t' || c == '\n' || c == '\U{000B}' || c == '\U{000C}' || c == '\r'
    || c == ' ' || c == '\U{00A0}' || c == '\U{1680}'
    || ('\U{2000}' <= c <= '\U{200A}')
    || c == '\U{2028}' || c == '\U{2029}' || c == '\U{202F}' || c == '\U{205F}'
    || c == '\U{3000}' || c == '\U{FEFF}'
  }

  /** Every character is whitespace (the empty string included). */
  predicate IsBlank(s: string) {
    forall i :: 0 <= i < |s| ==> IsSpace(s[i])
  }

  /** Neither end of the string is whitespace. */
  predicate IsTrimmed(s: string) {
    s == [] || (!IsSpace(s[0]) && !IsSpace(s[|s| - 1]))
  }

  /** The number of whitespace characters `s` starts with. */
  function LeadingSpaces(s: string): (n: nat)
    ensures n <= |s| && IsBlank(s[..n])
    ensures n < |s| ==> !IsSpace(s[n])
  {
    if s != [] && IsSpace(s[0]) then 1 + LeadingSpaces(s[1..]) else 0
  }

  /** The number of whitespace characters `s` ends with. */
  function TrailingSpaces(s: string): (n: nat)
    ensures n <= |s| && IsBlank(s[|s| - n..])
    ensures n < |s| ==> !IsSpace(s[|s| - 1 - n])
  {
    if s != [] && IsSpace(s[|s| - 1]) then 1 + TrailingSpaces(s[..|s| - 1]) else 0
  }

  /** `s.trim()`: what is left of `s` once its leading whitespace and a
      blank suffix are removed; it begins and ends with non-whitespace. */
  function Trim(s: string): (r: string)
    ensures IsTrimmed(r)
    ensures var k := LeadingSpaces(s);
              k + |r| <= |s| && r == s[k..k + |r|] && IsBlank(s[k + |r|..])
  {
    var k := LeadingSpaces(s);
    var rest := s[k..];
    var m := TrailingSpaces(rest);
    var r := rest[..|rest| - m];
    assert r == s[k..k + |r|];
    assert rest[|r|..] == s[k + |r|..];
    assert r != [] ==> r[0] == s[k] && r[|r| - 1] == rest[|rest| - 1 - m];
    r
  }

  /** The trimmed text is empty exactly when the input is blank, which is
      the emptiness test `if (!t)` applies to the trimmed title. */
  lemma {:induction false} TrimEmptyIffBlank(s: string)
    ensures Trim(s) == [] <==> IsBlank(s)
  {
    var k := LeadingSpaces(s);
    if Trim(s) == [] {
      assert s[..k] == s;
    } else {
      assert Trim(s)[0] == s[k];
    }
  }

  /** Trimming text that is already trimmed gives it back unchanged; in
      particular trimming is idempotent. */
  lemma {:induction false} TrimTrimmed(s: string)
    requires IsTrimmed(s)
    ensures Trim(s) == s
  {
    if s != [] {
      assert LeadingSpaces(s) == 0;
      assert TrailingSpaces(s) == 0;
    }
  }

  /** `"  Buy milk  ".trim()` is `"Buy milk"`, and trimming spaces alone
      leaves nothing. */
  lemma TrimExample()
    ensures Trim("  Buy milk  ") == "Buy milk"
    ensures Trim("   ") == ""
  {
    LeadingExample();
    TrailingExample();
    assert "Buy milk  "[..8] == "Buy milk";
    TrimEmptyIffBlank("   ");
  }

  lemma LeadingExample()
    ensures LeadingSpaces("  Buy milk  ") == 2
    ensures "  Buy milk  "[2..] == "Buy milk  "
  {
    var padded := "  Buy milk  ";
    assert padded[1..] == " Buy milk  " && padded[1..][1..] == "Buy milk  ";
    assert LeadingSpaces("Buy milk  ") == 0 by { assert "Buy milk  "[0] == 'B'; }
  }

  lemma TrailingExample()
    ensures TrailingSpaces("Buy milk  ") == 2
  {
    var rest := "Buy milk  ";
    assert rest[..9] == "Buy milk " && rest[..9][..8] == "Buy milk";
    assert TrailingSpaces("Buy milk") == 0 by { assert "Buy milk"[7] == 'k'; }
  }
}
