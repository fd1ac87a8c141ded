/**
 * The two Python string built-ins the sheet parser relies on, `str.strip()`
 * and `str.lower()`, restricted to the ASCII range.
 */
module Text {

  /** `c.isspace()` for an ASCII character: tab, line feed, vertical tab,
      form feed, carriage return, the four separators 0x1C-0x1F and space. */
  predicate IsSpace(c: char) {
    ('\t' <= c <= '\r') || ('\U{1C}' <= c <= ' ')
  }

  /** Every character of `s` is whitespace. */
  predicate AllSpace(s: string) {
    forall i :: 0 <= i < |s| ==> IsSpace(s[i])
  }

  /** `s.lstrip()`: leaves a string that is empty or starts with a
      non-whitespace character (TrimStartSpec says what it drops). */
  function TrimStart(s: string): (r: string)
    ensures |r| <= |s|
    ensures r == [] || !IsSpace(r[0])
  {
    if s != [] && IsSpace(s[0]) then TrimStart(s[1..]) else s
  }

  /** `s.rstrip()`: leaves a string that is empty or ends with a
      non-whitespace character (TrimEndSpec says what it drops). */
  function TrimEnd(s: string): (r: string)
    ensures |r| <= |s|
    ensures r == [] || !IsSpace(r[|r| - 1])
  {
    if s != [] && IsSpace(s[|s| - 1]) then TrimEnd(s[..|s| - 1]) else s
  }

  /** What `lstrip` drops is exactly a prefix of `s` made of whitespace. */
  lemma {:induction false} TrimStartSpec(s: string)
    ensures TrimStart(s) == s[|s| - |TrimStart(s)|..]
    ensures AllSpace(s[..|s| - |TrimStart(s)|])
  {
    if s != [] && IsSpace(s[0]) {
      TrimStartSpec(s[1..]);
      var n := |s| - |TrimStart(s)|;
      assert s[1..][..n - 1] == s[1..n];
      assert forall i :: 0 <= i < n ==> s[..n][i] == (if i == 0 then s[0] else s[1..][..n - 1][i - 1]);
    }
  }

  /** What `rstrip` drops is exactly a suffix of `s` made of whitespace. */
  lemma {:induction false} TrimEndSpec(s: string)
    ensures TrimEnd(s) == s[..|TrimEnd(s)|]
    ensures AllSpace(s[|TrimEnd(s)|..])
  {
    if s != [] && IsSpace(s[|s| - 1]) {
      TrimEndSpec(s[..|s| - 1]);
      var n := |TrimEnd(s)|;
      assert s[..|s| - 1][n..] == s[n..|s| - 1];
      assert forall i :: n <= i < |s| ==> s[n..][i - n] == (if i == |s| - 1 then s[i] else s[..|s| - 1][n..][i - n]);
    }
  }

  /** `s.strip()`: neither begins nor ends with whitespace (StripSpec says
      what is removed). */
  function Strip(s: string): (r: string)
    ensures r == [] || (!IsSpace(r[0]) && !IsSpace(r[|r| - 1]))
  {
    TrimEndSpec(TrimStart(s));
    TrimEnd(TrimStart(s))
  }

  /** What `strip` removes is a whitespace prefix and a whitespace suffix:
      the result is the middle of `s` between them. */
  lemma StripSpec(s: string)
    ensures exists i, j :: 0 <= i <= j <= |s| && Strip(s) == s[i..j] && AllSpace(s[..i]) && AllSpace(s[j..])
  {
    var t := TrimStart(s);
    var r := TrimEnd(t);
    var i := |s| - |t|;
    TrimStartSpec(s);
    TrimEndSpec(t);
    assert s[i..i + |r|] == r;
    assert s[i + |r|..] == t[|r|..];
  }

  /** `c.lower()` for an ASCII character: only `A`-`Z` change. */
  function LowerChar(c: char): char {
    if 'A' <= c <= 'Z' then (c as int - 'A' as int + 'a' as int) as char else c
  }

  /** `s.lower()` on ASCII: each character lower-cased in place. */
  function Lower(s: string): string {
    seq(|s|, i requires 0 <= i < |s| => LowerChar(s[i]))
  }

  /** Stripping leaves nothing exactly when the string is all whitespace. */
  lemma StripEmptyIff(s: string)
    ensures Strip(s) == [] <==> AllSpace(s)
  {
    StripSpec(s);
    var i, j :| 0 <= i <= j <= |s| && Strip(s) == s[i..j] && AllSpace(s[..i]) && AllSpace(s[j..]);
    if Strip(s) == [] {
      forall k | 0 <= k < |s| ensures IsSpace(s[k]) {
        if k < i { assert s[..i][k] == s[k]; } else { assert s[j..][k - j] == s[k]; }
      }
    } else {
      assert s[i] == Strip(s)[0];
    }
  }

  /** Leading whitespace does not survive `lstrip`. */
  lemma {:induction false} TrimStartSkipsSpace(ws: string, t: string)
    requires AllSpace(ws)
    ensures TrimStart(ws + t) == TrimStart(t)
  {
    if ws != [] {
      assert (ws + t)[1..] == ws[1..] + t;
      TrimStartSkipsSpace(ws[1..], t);
    } else {
      assert ws + t == t;
    }
  }

  /** Trailing whitespace does not survive `rstrip`. */
  lemma {:induction false} TrimEndSkipsSpace(t: string, ws: string)
    requires AllSpace(ws)
    ensures TrimEnd(t + ws) == TrimEnd(t)
  {
    if ws != [] {
      assert (t + ws)[..|t + ws| - 1] == t + ws[..|ws| - 1];
      TrimEndSkipsSpace(t, ws[..|ws| - 1]);
    } else {
      assert t + ws == t;
    }
  }

  /** Once `lstrip` has reached a non-whitespace character, what follows is
      kept as it is; if it reached none, whitespace after it is dropped too. */
  lemma {:induction false} TrimStartAppend(t: string, ws: string)
    requires AllSpace(ws)
    ensures TrimStart(t) != [] ==> TrimStart(t + ws) == TrimStart(t) + ws
    ensures TrimStart(t) == [] ==> TrimStart(t + ws) == TrimStart(ws)
  {
    if t == [] {
      assert t + ws == ws;
    } else if IsSpace(t[0]) {
      assert (t + ws)[1..] == t[1..] + ws;
      TrimStartAppend(t[1..], ws);
    }
  }

  /** Surrounding a string with whitespace does not change what `strip`
      returns. */
  lemma StripIgnoresSurroundingSpace(ws1: string, t: string, ws2: string)
    requires AllSpace(ws1) && AllSpace(ws2)
    ensures Strip(ws1 + t + ws2) == Strip(t)
  {
    assert ws1 + t + ws2 == ws1 + (t + ws2);
    TrimStartSkipsSpace(ws1, t + ws2);
    TrimStartAppend(t, ws2);
    if TrimStart(t) != [] {
      TrimEndSkipsSpace(TrimStart(t), ws2);
    } else {
      TrimStartSkipsSpace(ws2, []);
      assert ws2 + [] == ws2;
    }
  }

  /** Lower-casing never turns a character into whitespace or out of it. */
  lemma LowerCharKeepsSpace(c: char)
    ensures IsSpace(LowerChar(c)) == IsSpace(c)
  {
  }

  /** `lstrip` and `lower` commute. */
  lemma {:induction false} TrimStartLower(s: string)
    ensures TrimStart(Lower(s)) == Lower(TrimStart(s))
  {
    if s != [] {
      LowerCharKeepsSpace(s[0]);
      assert Lower(s)[1..] == Lower(s[1..]);
      TrimStartLower(s[1..]);
    }
  }

  /** `rstrip` and `lower` commute. */
  lemma {:induction false} TrimEndLower(s: string)
    ensures TrimEnd(Lower(s)) == Lower(TrimEnd(s))
  {
    if s != [] {
      LowerCharKeepsSpace(s[|s| - 1]);
      assert Lower(s)[..|s| - 1] == Lower(s[..|s| - 1]);
      TrimEndLower(s[..|s| - 1]);
    }
  }

  /** `s.strip().lower() == s.lower().strip()` on ASCII. */
  lemma StripLowerCommute(s: string)
    ensures Lower(Strip(s)) == Strip(Lower(s))
  {
    TrimStartLower(s);
    TrimEndLower(TrimStart(s));
  }
}
