/** The text checks the service and the queries apply: Java's String.trim,
    the phone-number pattern `^010-\d{4}-\d{4}$`, and SQLite's LIKE operator. */
module Text {

  /** String.trim strips every character at or below U+0020 from both ends. */
  predicate IsTrimmable(c: char) { c <= ' ' }

  /** The number of trimmable characters at the front of `s`. */
  function LeadingSpaces(s: string): (k: nat)
    ensures k <= |s|
    ensures forall i :: 0 <= i < k ==> IsTrimmable(s[i])
    ensures k == |s| || !IsTrimmable(s[k])
  {
    if s != [] && IsTrimmable(s[0]) then 1 + LeadingSpaces(s[1..]) else 0
  }

  /** The number of trimmable characters at the back of `s`. */
  function TrailingSpaces(s: string): (k: nat)
    ensures k <= |s|
    ensures forall i :: |s| - k <= i < |s| ==> IsTrimmable(s[i])
    ensures k == |s| || !IsTrimmable(s[|s| - 1 - k])
  {
    if s != [] && IsTrimmable(s[|s| - 1]) then 1 + TrailingSpaces(s[..|s| - 1]) else 0
  }

  /** String.trim. */
  function Trim(s: string): string
  {
    var lead := LeadingSpaces(s);
    if lead == |s| then []
    else
      assert !IsTrimmable(s[lead]);
      s[lead..|s| - TrailingSpaces(s)]
  }

  /** `s.trim().isEmpty()` */
  predicate IsBlank(s: string) { Trim(s) == [] }

  /** `r` is `s` with `i` characters cut from the front and the rest of the
      surplus from the back, all of them trimmable. */
  predicate CutsOnlyTrimmable(s: string, r: string, i: int)
  {
    && 0 <= i <= |s| - |r|
    && r == s[i..i + |r|]
    && (forall k :: 0 <= k < i ==> IsTrimmable(s[k]))
    && (forall k :: i + |r| <= k < |s| ==> IsTrimmable(s[k]))
  }

  /** Trimming cuts only trimmable characters, from the two ends, and leaves
      a value that starts and ends with a character that is kept. */
  lemma TrimSpec(s: string)
    ensures exists i :: CutsOnlyTrimmable(s, Trim(s), i)
    ensures Trim(s) != [] ==> !IsTrimmable(Trim(s)[0]) && !IsTrimmable(Trim(s)[|Trim(s)| - 1])
  {
    var r := Trim(s);
    var lead := LeadingSpaces(s);
    if lead == |s| {
      assert r == s[0..0];
      assert CutsOnlyTrimmable(s, r, 0);
    } else {
      assert r == s[lead..lead + |r|];
      assert CutsOnlyTrimmable(s, r, lead);
    }
  }

  /** A string is blank exactly when every character in it is trimmable. */
  lemma BlankIffAllTrimmable(s: string)
    ensures IsBlank(s) <==> forall i :: 0 <= i < |s| ==> IsTrimmable(s[i])
  {
    var lead := LeadingSpaces(s);
    if lead < |s| {
      assert !IsTrimmable(s[lead]);
    }
  }

  /** Trimming twice is trimming once. */
  lemma TrimIdempotent(s: string)
    ensures Trim(Trim(s)) == Trim(s)
  {
    var r := Trim(s);
    TrimSpec(s);
    if r != [] {
      assert LeadingSpaces(r) == 0;
      assert TrailingSpaces(r) == 0;
      assert r[0..|r|] == r;
    }
  }

  // ---------------------------------------------------------------------
  // The phone-number pattern, matched by Pattern.matches (whole input).

  /** A pattern element that matches exactly one character. */
  datatype Atom = Literal(c: char) | Digit

  /** `\d` without UNICODE_CHARACTER_CLASS is [0-9]. */
  predicate IsAsciiDigit(c: char) { '0' <= c <= '9' }

  predicate AtomMatches(a: Atom, c: char)
  {
    match a
    case Literal(x) => c == x
    case Digit => IsAsciiDigit(c)
  }

  /** The pattern consumes the whole input, one character per atom. */
  predicate MatchesWhole(p: seq<Atom>, s: string)
  {
    if p == [] then s == []
    else s != [] && AtomMatches(p[0], s[0]) && MatchesWhole(p[1..], s[1..])
  }

  /** `010-\d{4}-\d{4}` written out atom by atom. */
  const PhonePattern: seq<Atom> :=
    [Literal('0'), Literal('1'), Literal('0'), Literal('-'),
     Digit, Digit, Digit, Digit, Literal('-'), Digit, Digit, Digit, Digit]

  predicate IsPhoneNumber(s: string) { MatchesWhole(PhonePattern, s) }

  /** A whole-input match has one character per atom, each matching its atom. */
  lemma {:induction false} MatchesWholeCharwise(p: seq<Atom>, s: string)
    ensures MatchesWhole(p, s) <==> |s| == |p| && forall i :: 0 <= i < |p| ==> AtomMatches(p[i], s[i])
  {
    if p != [] && s != [] {
      MatchesWholeCharwise(p[1..], s[1..]);
      if |s| == |p| && forall i :: 0 <= i < |p| ==> AtomMatches(p[i], s[i]) {
        forall i | 0 <= i < |p[1..]|
          ensures AtomMatches(p[1..][i], s[1..][i])
        {
          assert AtomMatches(p[i + 1], s[i + 1]);
        }
      }
      if MatchesWhole(p, s) {
        forall i | 0 <= i < |p|
          ensures AtomMatches(p[i], s[i])
        {
          if i > 0 {
            assert p[1..][i - 1] == p[i] && s[1..][i - 1] == s[i];
          }
        }
      }
    }
  }

  /** The accepted phone numbers: 13 characters, "010-", four ASCII digits,
      '-', four ASCII digits. */
  lemma PhoneNumberShape(s: string)
    ensures IsPhoneNumber(s) <==>
      && |s| == 13
      && s[..4] == "010-"
      && s[8] == '-'
      && (forall i :: 4 <= i < 8 ==> IsAsciiDigit(s[i]))
      && (forall i :: 9 <= i < 13 ==> IsAsciiDigit(s[i]))
  {
    MatchesWholeCharwise(PhonePattern, s);
    if |s| == 13 {
      if s[..4] == "010-" {
        assert s[0] == s[..4][0] && s[1] == s[..4][1] && s[2] == s[..4][2] && s[3] == s[..4][3];
      }
      if forall i :: 0 <= i < 13 ==> AtomMatches(PhonePattern[i], s[i]) {
        assert AtomMatches(PhonePattern[0], s[0]) && AtomMatches(PhonePattern[1], s[1]);
        assert AtomMatches(PhonePattern[2], s[2]) && AtomMatches(PhonePattern[3], s[3]);
        assert s[..4] == [s[0], s[1], s[2], s[3]];
        assert AtomMatches(PhonePattern[8], s[8]);
      }
    }
  }

  // ---------------------------------------------------------------------
  // SQLite's LIKE with its default settings: '%' matches any run of
  // characters, '_' any one character, and letters compare without regard
  // to ASCII case.

  /** Folds ASCII upper-case letters to lower case; other characters are unchanged. */
  function FoldAscii(c: char): char
  {
    if 'A' <= c <= 'Z' then (c as int + 32) as char else c
  }

  predicate Like(p: string, s: string)
    decreases |p| + |s|
  {
    if p == [] then s == []
    else if p[0] == '%' then Like(p[1..], s) || (s != [] && Like(p, s[1..]))
    else s != [] && (p[0] == '_' || FoldAscii(p[0]) == FoldAscii(s[0])) && Like(p[1..], s[1..])
  }

  predicate HasNoWildcard(t: string)
  {
    forall i :: 0 <= i < |t| ==> t[i] != '%' && t[i] != '_'
  }

  /** `a` and `b` are equal once ASCII letters are folded. */
  predicate EqualIgnoringAsciiCase(a: string, b: string)
  {
    |a| == |b| && forall i :: 0 <= i < |a| ==> FoldAscii(a[i]) == FoldAscii(b[i])
  }

  /** `t` occurs in `s`, ignoring ASCII case. */
  ghost predicate ContainsIgnoringAsciiCase(s: string, t: string)
  {
    exists k :: OccursAt(s, t, k)
  }

  /** `t` occurs in `s` at position `k`, ignoring ASCII case. */
  predicate OccursAt(s: string, t: string, k: int)
  {
    0 <= k <= |s| - |t| && EqualIgnoringAsciiCase(s[k..k + |t|], t)
  }

  lemma {:induction false} LikeAnyMatches(s: string)
    ensures Like("%", s)
    decreases |s|
  {
    assert "%"[1..] == [];
    if s != [] {
      LikeAnyMatches(s[1..]);
    }
  }

  /** `t%` matches exactly the strings that start with `t` up to case. */
  lemma {:induction false} LikePrefix(t: string, s: string)
    requires HasNoWildcard(t)
    ensures Like(t + "%", s) <==> |t| <= |s| && EqualIgnoringAsciiCase(s[..|t|], t)
    decreases |t|
  {
    if t == [] {
      assert t + "%" == "%";
      LikeAnyMatches(s);
    } else {
      var p := t + "%";
      assert p[0] == t[0] && p[1..] == t[1..] + "%";
      assert HasNoWildcard(t[1..]) by {
        forall i | 0 <= i < |t[1..]| ensures t[1..][i] != '%' && t[1..][i] != '_' {
          assert t[1..][i] == t[i + 1];
        }
      }
      assert t[0] != '%' && t[0] != '_';
      if s != [] {
        LikePrefix(t[1..], s[1..]);
        if |t| <= |s| {
          var a, b := s[..|t|], s[1..][..|t| - 1];
          assert b == a[1..];
          if EqualIgnoringAsciiCase(a, t) {
            assert FoldAscii(a[0]) == FoldAscii(t[0]);
            forall i | 0 <= i < |b| ensures FoldAscii(b[i]) == FoldAscii(t[1..][i]) {
              assert b[i] == a[i + 1] && t[1..][i] == t[i + 1];
            }
          }
          if FoldAscii(t[0]) == FoldAscii(s[0]) && EqualIgnoringAsciiCase(b, t[1..]) {
            forall i | 0 <= i < |a| ensures FoldAscii(a[i]) == FoldAscii(t[i]) {
              if i > 0 {
                assert a[i] == b[i - 1] && t[i] == t[1..][i - 1];
              }
            }
          }
        }
      }
    }
  }

  /** A leading `%` matches when the rest matches some suffix. */
  lemma {:induction false} LikeLeadingPercent(q: string, s: string)
    ensures Like("%" + q, s) <==> exists k :: 0 <= k <= |s| && Like(q, s[k..])
    decreases |s|
  {
    var p := "%" + q;
    assert p[0] == '%' && p[1..] == q;
    assert s[0..] == s;
    if s != [] {
      LikeLeadingPercent(q, s[1..]);
      if exists k :: 0 <= k <= |s[1..]| && Like(q, s[1..][k..]) {
        var k :| 0 <= k <= |s[1..]| && Like(q, s[1..][k..]);
        assert s[1..][k..] == s[k + 1..];
      }
      if exists k :: 0 <= k <= |s| && Like(q, s[k..]) {
        var k :| 0 <= k <= |s| && Like(q, s[k..]);
        if k > 0 {
          assert s[k..] == s[1..][k - 1..];
        }
      }
    }
  }

  /** The search pattern `'%' + name + '%'` finds the names containing `name`,
      ignoring ASCII case, when `name` holds no wildcard. */
  lemma LikeContains(t: string, s: string)
    requires HasNoWildcard(t)
    ensures Like("%" + t + "%", s) <==> ContainsIgnoringAsciiCase(s, t)
  {
    assert "%" + t + "%" == "%" + (t + "%");
    LikeLeadingPercent(t + "%", s);
    if Like("%" + t + "%", s) {
      var k :| 0 <= k <= |s| && Like(t + "%", s[k..]);
      LikePrefix(t, s[k..]);
      assert s[k..][..|t|] == s[k..k + |t|];
      assert OccursAt(s, t, k);
    }
    if ContainsIgnoringAsciiCase(s, t) {
      var k :| OccursAt(s, t, k);
      LikePrefix(t, s[k..]);
      assert s[k..][..|t|] == s[k..k + |t|];
      assert Like(t + "%", s[k..]);
    }
  }
}
