/** The email rule of the registration screen: `String.matches` against
    `^[\w.+-]+@[\w-]+\.[\w.-]{2,}$`, a whole-string match in java.util.regex,
    where `\w` is the ASCII class `[A-Za-z0-9_]` as OpenJDK defines it. */
module EmailPattern {

  /** `\w` without UNICODE_CHARACTER_CLASS. */
  predicate IsWordChar(c: char) {
    ('A' <= c <= 'Z') || ('a' <= c <= 'z') || ('0' <= c <= '9') || c == '_'
  }

  /** `[\w.+-]`, the local part before the '@'. */
  predicate IsLocalChar(c: char) {
    IsWordChar(c) || c == '.' || c == '+' || c == '-'
  }

  /** `[\w-]`, the domain label between the '@' and the '.'. */
  predicate IsLabelChar(c: char) {
    IsWordChar(c) || c == '-'
  }

  /** `[\w.-]`, the tail after the '.'. */
  predicate IsTailChar(c: char) {
    IsWordChar(c) || c == '.' || c == '-'
  }

  predicate AllLocal(s: string) {
    forall i :: 0 <= i < |s| ==> IsLocalChar(s[i])
  }

  predicate AllLabel(s: string) {
    forall i :: 0 <= i < |s| ==> IsLabelChar(s[i])
  }

  predicate AllTail(s: string) {
    forall i :: 0 <= i < |s| ==> IsTailChar(s[i])
  }

  /** `s` reads as `[\w.+-]+ @ [\w-]+ \. [\w.-]{2,}` with the '@' at index `at`
      and the '.' at index `dot`. */
  predicate SplitsAt(s: string, at: int, dot: int) {
    && 0 < at && at + 1 < dot && dot + 2 < |s|
    && AllLocal(s[..at]) && s[at] == '@'
    && AllLabel(s[at + 1..dot]) && s[dot] == '.'
    && AllTail(s[dot + 1..])
  }

  /** The language of the pattern: some split of `s` fits it. */
  ghost predicate MatchesPattern(s: string) {
    exists at, dot :: SplitsAt(s, at, dot)
  }

  /** Index of the first `c` in `s`, or `|s|` when there is none. */
  function IndexOf(s: string, c: char): (k: nat)
    ensures k <= |s|
    ensures k < |s| ==> s[k] == c
    ensures forall m :: 0 <= m < k ==> s[m] != c
  {
    if s == [] || s[0] == c then 0 else 1 + IndexOf(s[1..], c)
  }

  /** Where the pattern's '@' must be: the first '@' of `s`. */
  function AtIndex(s: string): nat {
    IndexOf(s, '@')
  }

  /** Where the pattern's '.' must be: the first '.' after the '@'. */
  function DotIndex(s: string): nat
    requires AtIndex(s) < |s|
  {
    AtIndex(s) + 1 + IndexOf(s[AtIndex(s) + 1..], '.')
  }

  /** The deterministic matcher: none of the classes holds '@' and the label class
      holds no '.', so the only split worth trying is at the first '@' and the
      first '.' after it. */
  predicate EmailMatches(s: string) {
    AtIndex(s) < |s| && SplitsAt(s, AtIndex(s), DotIndex(s))
  }

  /** A split that fits the pattern is the one the matcher tries. */
  lemma SplitIsUnique(s: string, at: int, dot: int)
    requires SplitsAt(s, at, dot)
    ensures at == AtIndex(s) && dot == DotIndex(s)
  {
    var rest := s[at + 1..];
    assert rest[dot - at - 1] == '.';
    forall m | 0 <= m < dot - at - 1 ensures rest[m] != '.' {
      assert rest[m] == s[at + 1..dot][m];
    }
  }

  /** The matcher accepts exactly the strings of the pattern's language. */
  lemma EmailMatchesIsPattern(s: string)
    ensures EmailMatches(s) <==> MatchesPattern(s)
  {
    if MatchesPattern(s) {
      var at, dot :| SplitsAt(s, at, dot);
      SplitIsUnique(s, at, dot);
    }
  }

  /** Every character of an email the pattern accepts is one of `[\w.+-]` or '@'. */
  predicate IsEmailChar(c: char) {
    IsLocalChar(c) || c == '@'
  }

  /** What an accepted email looks like: exactly one '@', a '.' somewhere after it,
      at least six characters, only pattern characters, and a last character from
      `[\w.-]`. */
  lemma AcceptedEmailShape(s: string)
    requires EmailMatches(s)
    ensures multiset(s)['@'] == 1
    ensures '.' in s[AtIndex(s) + 1..]
    ensures |s| >= 6
    ensures forall i :: 0 <= i < |s| ==> IsEmailChar(s[i])
    ensures IsTailChar(s[|s| - 1])
  {
    var at, dot := AtIndex(s), DotIndex(s);
    assert s == s[..at] + [s[at]] + s[at + 1..];
    assert '@' !in s[..at] by {
      forall i | 0 <= i < at ensures s[..at][i] != '@' { assert IsLocalChar(s[..at][i]); }
    }
    assert '@' !in s[at + 1..] by {
      forall i | at + 1 <= i < |s| ensures s[i] != '@' {
        if i < dot {
          assert IsLabelChar(s[at + 1..dot][i - at - 1]);
        } else if i > dot {
          assert IsTailChar(s[dot + 1..][i - dot - 1]);
        }
      }
    }
    assert s[at + 1..][dot - at - 1] == '.';
    forall i | 0 <= i < |s| ensures IsEmailChar(s[i]) {
      if i < at {
        assert IsLocalChar(s[..at][i]);
      } else if at < i < dot {
        assert IsLabelChar(s[at + 1..dot][i - at - 1]);
      } else if i > dot {
        assert IsTailChar(s[dot + 1..][i - dot - 1]);
      }
    }
    assert IsTailChar(s[dot + 1..][|s| - dot - 2]);
  }

  /** The examples the screen is designed around: a two-letter tail is accepted. */
  lemma ShortestTailAccepted(s: string)
    requires s == "a@b.co"
    ensures EmailMatches(s)
  {
    assert s[0] != '@' && s[1] == '@';
    assert AtIndex(s) == 1;
    assert s[2..][0] != '.' && s[2..][1] == '.';
    assert DotIndex(s) == 3;
  }

  /** A one-letter tail is rejected. */
  lemma OneLetterTailRejected(s: string)
    requires s == "a@b.c"
    ensures !EmailMatches(s)
  {
    assert s[0] != '@' && s[1] == '@';
    assert AtIndex(s) == 1;
  }

  /** A string without '@' is rejected. */
  lemma NoAtRejected(s: string)
    requires s == "not-an-email"
    ensures !EmailMatches(s)
  {
    forall i | 0 <= i < |s| ensures s[i] != '@' {
    }
  }
}
