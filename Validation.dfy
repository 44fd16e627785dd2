/** The two field validators of the contact form. Each regular expression is
    written twice: once as the check a reader would state in words, once in
    the shape of the pattern itself, with a lemma that the two agree. */
module Validation {
  import opened Text

  /** Message shown under the phone field when it is rejected. */
  const PhoneMessage: string :=
    "Veuillez entrer uniquement des chiffres pour le num\U{00E9}ro de t\U{00E9}l\U{00E9}phone."

  /** Message shown under the email field when it is rejected. */
  const EmailMessage: string := "Veuillez entrer une adresse email valide."

  // ---------------------------------------------------------------- phone

  /** A phone number is one or more ASCII digits and nothing else. */
  predicate IsPhone(s: string) {
    |s| > 0 && forall i :: 0 <= i < |s| ==> IsAsciiDigit(s[i])
  }

  /** `^[0-9]+$` read as the pattern is built: one digit, then either the end
      of the input or a further match of `[0-9]+`. */
  predicate DigitsPlus(s: string) {
    |s| > 0 && IsAsciiDigit(s[0]) && (|s| == 1 || DigitsPlus(s[1..]))
  }

  lemma {:induction false} PhoneMatchesPattern(s: string)
    ensures IsPhone(s) <==> DigitsPlus(s)
  {
    if |s| > 1 {
      PhoneMatchesPattern(s[1..]);
      assert IsPhone(s) <==> IsAsciiDigit(s[0]) && IsPhone(s[1..]) by {
        assert forall i :: 1 <= i < |s| ==> s[i] == s[1..][i - 1];
      }
    }
  }

  // ---------------------------------------------------------------- email

  /** The class `[^\s@]`. */
  predicate Plain(c: char) {
    !IsWhitespace(c) && c != '@'
  }

  predicate AllPlain(t: string) {
    forall k :: 0 <= k < |t| ==> Plain(t[k])
  }

  /** `s` splits as `^[^\s@]+@[^\s@]+\.[^\s@]+$` with the `@` at `i` and the
      literal `.` at `j`. */
  predicate EmailSplit(s: string, i: int, j: int) {
    && 0 < i && i + 1 < j && j + 1 < |s|
    && s[i] == '@' && s[j] == '.'
    && AllPlain(s[..i]) && AllPlain(s[i + 1..j]) && AllPlain(s[j + 1..])
  }

  /** The email pattern matches `s` when some split of `s` fits it. */
  ghost predicate EmailPattern(s: string) {
    exists i, j :: EmailSplit(s, i, j)
  }

  /** Index of the first `c` in `s`, or `|s|` when there is none. */
  function IndexOf(s: string, c: char): (k: nat)
    ensures k <= |s|
    ensures c !in s[..k]
    ensures k < |s| ==> s[k] == c
  {
    if s == [] then 0
    else if s[0] == c then 0
    else
      assert s[..1 + IndexOf(s[1..], c)] == [s[0]] + s[1..][..IndexOf(s[1..], c)];
      1 + IndexOf(s[1..], c)
  }

  predicate NoWhitespace(s: string) {
    forall k :: 0 <= k < |s| ==> !IsWhitespace(s[k])
  }

  /** `d` has a `.` that is neither its first nor its last character. */
  predicate HasInnerDot(d: string) {
    exists j :: 0 < j < |d| - 1 && d[j] == '.'
  }

  /** An email address: no whitespace; an `@` that is not the first character
      and is the only one; after it, a `.` that is neither the first nor the
      last character of the domain. */
  predicate IsEmail(s: string) {
    && NoWhitespace(s)
    && var k := IndexOf(s, '@');
    && 0 < k < |s| && '@' !in s[k + 1..] && HasInnerDot(s[k + 1..])
  }

  /** The first occurrence is the only candidate: if `s[i]` is `c` and no
      earlier character is, `IndexOf` finds `i`. */
  lemma IndexOfFirst(s: string, c: char, i: int)
    requires 0 <= i < |s| && s[i] == c && c !in s[..i]
    ensures IndexOf(s, c) == i
  {
  }

  /** An address accepted by IsEmail has exactly one `@`, and it is not the
      first character. */
  lemma EmailHasOneAt(s: string)
    requires IsEmail(s)
    ensures exists k :: 0 < k < |s| && s[k] == '@' &&
                        forall m :: 0 <= m < |s| && s[m] == '@' ==> m == k
  {
  }

  lemma EmailMatchesPattern(s: string)
    ensures IsEmail(s) <==> EmailPattern(s)
  {
    if IsEmail(s) {
      var k := IndexOf(s, '@');
      var d := s[k + 1..];
      var j' :| 0 < j' < |d| - 1 && d[j'] == '.';
      var j := k + 1 + j';
      forall m | 0 <= m < |s| && m != k ensures Plain(s[m]) {
        if m < k {
          assert s[..k][m] == s[m];
        } else {
          assert d[m - k - 1] == s[m];
        }
      }
      assert forall m :: 0 <= m < k ==> s[..k][m] == s[m];
      assert forall m :: k + 1 <= m < j ==> s[k + 1..j][m - k - 1] == s[m];
      assert forall m :: j + 1 <= m < |s| ==> s[j + 1..][m - j - 1] == s[m];
      assert EmailSplit(s, k, j);
    }
    if EmailPattern(s) {
      var i, j :| EmailSplit(s, i, j);
      forall m | 0 <= m < |s| && m != i && m != j ensures Plain(s[m]) {
        if m < i {
          assert s[..i][m] == s[m];
        } else if m < j {
          assert s[i + 1..j][m - i - 1] == s[m];
        } else {
          assert s[j + 1..][m - j - 1] == s[m];
        }
      }
      assert '@' !in s[..i] by {
        assert forall m :: 0 <= m < i ==> s[..i][m] == s[m];
      }
      IndexOfFirst(s, '@', i);
      var d := s[i + 1..];
      assert d[j - i - 1] == '.';
      assert '@' !in d by {
        assert forall m :: 0 <= m < |d| ==> d[m] == s[i + 1 + m];
      }
    }
  }

  /** The validator examples: digits only for the phone; a dotted domain and
      no blanks for the email. */
  lemma ValidatorExamples()
    ensures IsPhone("12345") && !IsPhone("12a45") && !IsPhone("")
    ensures IsEmail("a@b.com") && !IsEmail("a@b") && !IsEmail("a b@c.com")
  {
    assert "12a45"[2] == 'a';
    assert IndexOf("a@b.com", '@') == 1 by {
      IndexOfFirst("a@b.com", '@', 1);
    }
    assert "a@b.com"[2..][1] == '.';
    assert IndexOf("a@b", '@') == 1 by {
      IndexOfFirst("a@b", '@', 1);
    }
    assert "a b@c.com"[1] == ' ';
  }
}
