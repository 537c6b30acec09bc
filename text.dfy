/**
 * The string primitives the scripts and routes rely on: the character classes
 * `\d` and `\s` of JavaScript regular expressions, `String.prototype.trim`,
 * `includes`, `startsWith`, `replace` with a string pattern, the decimal
 * rendering of a number, and the three regular expressions the portal uses for
 * student ids, phone numbers and e-mail addresses.
 */
module Text {

  /** `\d`: an ASCII decimal digit. */
  predicate IsDigit(c: char)
  {
    '0' <= c <= '9'
  }

  /**
   * `\s`, which is also the set `trim()` removes: the ECMAScript WhiteSpace and
   * LineTerminator code points.
   */
  predicate IsSpace(c: char)
  {
    || c == ' ' || c == '\t' || c == '\n' || c == '\U{000B}' || c == '\U{000C}' || c == '\r'
    || c == '\U{00A0}' || c == '\U{1680}' || ('\U{2000}' <= c <= '\U{200A}')
    || c == '\U{2028}' || c == '\U{2029}' || c == '\U{202F}' || c == '\U{205F}'
    || c == '\U{3000}' || c == '\U{FEFF}'
  }

  /** `/\d/.test(s)`. */
  predicate ContainsDigit(s: string)
  {
    exists i :: 0 <= i < |s| && IsDigit(s[i])
  }

  predicate AllDigits(s: string)
  {
    forall i :: 0 <= i < |s| ==> IsDigit(s[i])
  }

  /** `!s || s.trim() === ''`: the text is empty or made of white space only. */
  predicate IsBlank(s: string)
  {
    forall i :: 0 <= i < |s| ==> IsSpace(s[i])
  }

  /** Removes leading white space. */
  function TrimStart(s: string): (r: string)
    ensures |r| <= |s| && r == s[|s| - |r|..]
    ensures r == [] || !IsSpace(r[0])
    ensures forall i :: 0 <= i < |s| - |r| ==> IsSpace(s[i])
  {
    if s != [] && IsSpace(s[0]) then TrimStart(s[1..]) else s
  }

  /** Removes trailing white space. */
  function TrimEnd(s: string): (r: string)
    ensures |r| <= |s| && r == s[..|r|]
    ensures r == [] || !IsSpace(r[|r| - 1])
    ensures forall i :: |r| <= i < |s| ==> IsSpace(s[i])
  {
    if s != [] && IsSpace(s[|s| - 1]) then TrimEnd(s[..|s| - 1]) else s
  }

  /** `s.trim()`. */
  function Trim(s: string): (r: string)
    ensures r == [] || (!IsSpace(r[0]) && !IsSpace(r[|r| - 1]))
  {
    TrimEnd(TrimStart(s))
  }

  /** Blank text trims to nothing. */
  lemma BlankTrimsToEmpty(s: string)
    requires IsBlank(s)
    ensures Trim(s) == []
  {
  }

  /** Text with a non-space character keeps it when trimmed. */
  lemma NonBlankTrimsToNonEmpty(s: string, i: nat)
    requires i < |s| && !IsSpace(s[i])
    ensures Trim(s) != []
  {
    var t := TrimStart(s);
    var k := |s| - |t|;
    assert i >= k;
    assert t[i - k] == s[i];
  }

  /** `s.trim() === ''` holds exactly for blank text. */
  lemma TrimEmptyIffBlank(s: string)
    ensures Trim(s) == [] <==> IsBlank(s)
  {
    if IsBlank(s) {
      BlankTrimsToEmpty(s);
    } else {
      var i :| 0 <= i < |s| && !IsSpace(s[i]);
      NonBlankTrimsToNonEmpty(s, i);
    }
  }

  /** Trimming keeps the non-blank part: text that is not blank stays not blank once trimmed. */
  lemma TrimKeepsContent(s: string)
    ensures !IsBlank(s) ==> !IsBlank(Trim(s))
  {
    TrimEmptyIffBlank(s);
  }

  /** `s.startsWith(p)`. */
  predicate StartsWith(s: string, p: string)
  {
    |p| <= |s| && s[..|p|] == p
  }

  /** `s.includes(t)`: `t` occurs in `s` as a contiguous substring. */
  predicate Contains(s: string, t: string)
    decreases |s|
  {
    StartsWith(s, t) || (s != [] && Contains(s[1..], t))
  }

  /**
   * `s.replace(p, q)` with a string pattern: the first occurrence of `p` is
   * replaced by `q` (`q` is taken literally: the portal never passes `$` patterns).
   */
  function ReplaceFirst(s: string, p: string, q: string): (r: string)
    ensures !Contains(s, p) ==> r == s
    decreases |s|
  {
    if StartsWith(s, p) then q + s[|p|..]
    else if s == [] then s
    else [s[0]] + ReplaceFirst(s[1..], p, q)
  }

  /** A mismatch at offset `i` rules out an occurrence of `p` at `j`. */
  lemma NotStartsWithAt(s: string, p: string, j: nat, i: nat)
    requires j + i < |s| && i < |p| && s[j + i] != p[i]
    ensures !StartsWith(s[j..], p)
  {
  }

  /** `replace` acts at the first occurrence of the pattern. */
  lemma {:induction false} ReplaceFirstAt(s: string, p: string, q: string, k: nat)
    requires k + |p| <= |s| && s[k..k + |p|] == p
    requires forall j :: 0 <= j < k ==> !StartsWith(s[j..], p)
    ensures ReplaceFirst(s, p, q) == s[..k] + q + s[k + |p|..]
    decreases k
  {
    if k == 0 {
      assert s[..|p|] == s[0..|p|];
    } else {
      var t := s[1..];
      NoEarlierInTail(s, p, k);
      assert t[k - 1..k - 1 + |p|] == s[k..k + |p|];
      ReplaceFirstAt(t, p, q, k - 1);
      assert !StartsWith(s, p) by {
        assert s[0..] == s;
      }
      assert ReplaceFirst(s, p, q) == [s[0]] + ReplaceFirst(t, p, q);
      ConsSplice(s, q, k, |p|);
    }
  }

  /** No occurrence before `k` in `s` means none before `k - 1` in its tail. */
  lemma NoEarlierInTail(s: string, p: string, k: nat)
    requires 0 < k <= |s|
    requires forall j :: 0 <= j < k ==> !StartsWith(s[j..], p)
    ensures forall j :: 0 <= j < k - 1 ==> !StartsWith(s[1..][j..], p)
  {
    forall j | 0 <= j < k - 1
      ensures !StartsWith(s[1..][j..], p)
    {
      assert s[1..][j..] == s[j + 1..];
    }
  }

  /** Putting the head back in front of the spliced tail splices `s` itself. */
  lemma ConsSplice(s: string, q: string, k: nat, n: nat)
    requires 0 < k && k + n <= |s|
    ensures [s[0]] + (s[1..][..k - 1] + q + s[1..][k - 1 + n..]) == s[..k] + q + s[k + n..]
  {
    var t := s[1..];
    assert t[..k - 1] == s[1..k];
    assert t[k - 1 + n..] == s[k + n..];
    assert [s[0]] + s[1..k] == s[..k];
  }

  function DigitChar(d: int): (c: char)
    requires 0 <= d < 10
    ensures IsDigit(c)
  {
    ['0', '1', '2', '3', '4', '5', '6', '7', '8', '9'][d]
  }

  /** `String(n)` for a non-negative integer: its decimal digits without leading zeros. */
  function Decimal(n: nat): (r: string)
    ensures r != [] && AllDigits(r)
    ensures n < 10 <==> |r| == 1
  {
    if n < 10 then [DigitChar(n)] else Decimal(n / 10) + [DigitChar(n % 10)]
  }

  /** Distinct numbers have distinct decimal renderings. */
  lemma {:induction false} DecimalInjective(m: nat, n: nat)
    ensures Decimal(m) == Decimal(n) ==> m == n
  {
    if Decimal(m) == Decimal(n) && m >= 10 && n >= 10 {
      var dm, dn := Decimal(m), Decimal(n);
      assert dm[..|dm| - 1] == Decimal(m / 10);
      assert dn[..|dn| - 1] == Decimal(n / 10);
      DecimalInjective(m / 10, n / 10);
      assert dm[|dm| - 1] == DigitChar(m % 10);
      assert dn[|dn| - 1] == DigitChar(n % 10);
    }
  }

  /** `toLowerCase()` on ASCII letters; every other character is kept. */
  function LowerAscii(s: string): (r: string)
    ensures |r| == |s|
    ensures forall i :: 0 <= i < |s| ==> (r[i] == s[i] <==> !('A' <= s[i] <= 'Z'))
  {
    if s == [] then []
    else [if 'A' <= s[0] <= 'Z' then (s[0] as int + 32) as char else s[0]] + LowerAscii(s[1..])
  }

  /** `/^2022\d{9}$/.test(s)`, the student-id pattern of the server and of the profile page. */
  predicate StudentIdPattern(s: string)
  {
    |s| == 13 && s[..4] == "2022" && AllDigits(s[4..])
  }

  /** `/^\d{10}$/.test(s)`, the phone pattern used everywhere. */
  predicate PhonePattern(s: string)
  {
    |s| == 10 && AllDigits(s)
  }

  /** A character of the class `[^\s@]`. */
  predicate EmailChar(c: char)
  {
    c != '@' && !IsSpace(c)
  }

  predicate AllEmailChars(s: string)
  {
    forall i :: 0 <= i < |s| ==> EmailChar(s[i])
  }

  /**
   * `/^[^\s@]+@[^\s@]+\.[^\s@]+$/.test(s)`: some `@` at `a` and some `.` at `d`
   * split `s` into three non-empty runs of `[^\s@]`.
   */
  predicate EmailPattern(s: string)
  {
    exists a, d :: 0 < a && a + 1 < d && d + 1 < |s| && s[a] == '@' && s[d] == '.'
      && AllEmailChars(s[..a]) && AllEmailChars(s[a + 1..d]) && AllEmailChars(s[d + 1..])
  }

  /**
   * The shape the e-mail pattern describes: no white space, exactly one `@`
   * (at `a`) with a non-empty local part before it, and a domain after it that
   * holds a `.` with at least one character on each side.
   */
  predicate EmailShape(s: string)
  {
    (forall i :: 0 <= i < |s| ==> !IsSpace(s[i]))
    && (exists a :: 0 < a < |s| && s[a] == '@'
         && (forall i :: 0 <= i < |s| && i != a ==> s[i] != '@')
         && (exists d :: a + 1 < d < |s| - 1 && s[d] == '.'))
  }

  lemma EmailPatternHasShape(s: string, a: int, d: int)
    requires 0 < a && a + 1 < d && d + 1 < |s| && s[a] == '@' && s[d] == '.'
    requires AllEmailChars(s[..a]) && AllEmailChars(s[a + 1..d]) && AllEmailChars(s[d + 1..])
    ensures EmailShape(s)
  {
    forall i | 0 <= i < |s| && i != a
      ensures EmailChar(s[i])
    {
      if i < a {
        assert s[..a][i] == s[i];
      } else if i < d {
        assert s[a + 1..d][i - a - 1] == s[i];
      } else if i > d {
        assert s[d + 1..][i - d - 1] == s[i];
      }
    }
    assert !IsSpace(s[a]);
  }

  lemma EmailShapeMatchesPattern(s: string, a: int, d: int)
    requires forall i :: 0 <= i < |s| ==> !IsSpace(s[i])
    requires 0 < a < |s| && s[a] == '@' && (forall i :: 0 <= i < |s| && i != a ==> s[i] != '@')
    requires a + 1 < d < |s| - 1 && s[d] == '.'
    ensures EmailPattern(s)
  {
    assert AllEmailChars(s[..a]) by {
      forall i | 0 <= i < a ensures EmailChar(s[..a][i]) { assert s[..a][i] == s[i]; }
    }
    var domain, tld := s[a + 1..d], s[d + 1..];
    assert AllEmailChars(domain) by {
      forall i | 0 <= i < |domain| ensures EmailChar(domain[i]) { assert domain[i] == s[a + 1 + i]; }
    }
    assert AllEmailChars(tld) by {
      forall i | 0 <= i < |tld| ensures EmailChar(tld[i]) { assert tld[i] == s[d + 1 + i]; }
    }
  }

  /** The e-mail regular expression accepts exactly the strings of that shape. */
  lemma EmailPatternIsShape(s: string)
    ensures EmailPattern(s) <==> EmailShape(s)
  {
    if EmailPattern(s) {
      var a, d :| 0 < a && a + 1 < d && d + 1 < |s| && s[a] == '@' && s[d] == '.'
        && AllEmailChars(s[..a]) && AllEmailChars(s[a + 1..d]) && AllEmailChars(s[d + 1..]);
      EmailPatternHasShape(s, a, d);
    }
    if EmailShape(s) {
      var a :| 0 < a < |s| && s[a] == '@'
        && (forall i :: 0 <= i < |s| && i != a ==> s[i] != '@')
        && (exists d :: a + 1 < d < |s| - 1 && s[d] == '.');
      var d :| a + 1 < d < |s| - 1 && s[d] == '.';
      EmailShapeMatchesPattern(s, a, d);
    }
  }

  /** Text the e-mail pattern accepts is never blank. */
  lemma EmailPatternNotBlank(s: string)
    ensures EmailPattern(s) ==> !IsBlank(s)
  {
    if EmailPattern(s) {
      var a, d :| 0 < a && a + 1 < d && d + 1 < |s| && s[a] == '@' && s[d] == '.'
        && AllEmailChars(s[..a]) && AllEmailChars(s[a + 1..d]) && AllEmailChars(s[d + 1..]);
      assert !IsSpace(s[a]);
    }
  }
}
