/** The three Python string operations the converter relies on: formatting a
    non-negative int in decimal (`f'{n}'`), `str.replace` and
    `str.split('/')[-1]`. */
module PyStr {

  predicate IsDigit(c: char)
  {
    '0' <= c <= '9'
  }

  predicate AllDigits(s: string)
  {
    forall k :: 0 <= k < |s| ==> IsDigit(s[k])
  }

  function DigitChar(n: nat): (c: char)
    requires n < 10
    ensures IsDigit(c)
  {
    ('0' as int + n) as char
  }

  function DigitValue(c: char): (n: nat)
    requires IsDigit(c)
    ensures n < 10
  {
    c as int - '0' as int
  }

  /** `str(n)` for a non-negative int: decimal digits, most significant
      first, no leading zero except for `0` itself. */
  function NatToString(n: nat): (s: string)
    ensures |s| > 0 && AllDigits(s)
    ensures s[0] == '0' <==> n == 0
    ensures n < 10 <==> |s| == 1
    decreases n
  {
    if n < 10 then [DigitChar(n)]
    else NatToString(n / 10) + [DigitChar(n % 10)]
  }

  /** Reads a string of decimal digits back as a number (`int(s)`). */
  function ParseNat(s: string): nat
    requires AllDigits(s)
    decreases |s|
  {
    if s == [] then 0
    else ParseNat(s[..|s| - 1]) * 10 + DigitValue(s[|s| - 1])
  }

  /** Decimal formatting is undone by parsing. */
  lemma {:induction false} ParseNatToString(n: nat)
    ensures ParseNat(NatToString(n)) == n
    decreases n
  {
    var s := NatToString(n);
    if n < 10 {
      assert s[..|s| - 1] == [];
    } else {
      ParseNatToString(n / 10);
      assert s[..|s| - 1] == NatToString(n / 10);
    }
  }

  /** Distinct numbers format to distinct strings. */
  lemma NatToStringInjective(a: nat, b: nat)
    requires NatToString(a) == NatToString(b)
    ensures a == b
  {
    ParseNatToString(a);
    ParseNatToString(b);
  }

  /** `pat` occurs in `s` starting at index `i`. */
  predicate OccursAt(s: string, pat: string, i: int)
  {
    0 <= i && i + |pat| <= |s| && s[i..i + |pat|] == pat
  }

  predicate Occurs(s: string, pat: string)
  {
    exists i :: 0 <= i <= |s| && OccursAt(s, pat, i)
  }

  /** `s.replace(pat, rep)`: every non-overlapping occurrence of `pat`,
      found from the left, is replaced by `rep`. The converter only uses a
      non-empty `pat`. */
  function ReplaceAll(s: string, pat: string, rep: string): (r: string)
    requires pat != []
    ensures forall k :: 0 <= k < |r| ==> r[k] in s || r[k] in rep
    ensures |rep| >= |pat| ==> |r| >= |s|
    decreases |s|
  {
    if |s| < |pat| then s
    else if s[..|pat|] == pat then rep + ReplaceAll(s[|pat|..], pat, rep)
    else [s[0]] + ReplaceAll(s[1..], pat, rep)
  }

  /** When the pattern does not start the string, it occurs in the string
      exactly when it occurs after the first character. */
  lemma OccursPastHead(s: string, pat: string)
    requires pat != [] && |s| >= |pat| && s[..|pat|] != pat
    ensures Occurs(s, pat) <==> Occurs(s[1..], pat)
  {
    if Occurs(s, pat) {
      var i :| 0 <= i <= |s| && OccursAt(s, pat, i);
      assert 0 < i;
      assert s[1..][i - 1..i - 1 + |pat|] == s[i..i + |pat|];
      assert OccursAt(s[1..], pat, i - 1);
    }
    if Occurs(s[1..], pat) {
      var i :| 0 <= i <= |s| - 1 && OccursAt(s[1..], pat, i);
      assert s[i + 1..i + 1 + |pat|] == s[1..][i..i + |pat|];
      assert OccursAt(s, pat, i + 1);
    }
  }

  /** When the replacement is longer than the pattern, `replace` leaves the
      string unchanged exactly when the pattern does not occur in it. */
  lemma {:induction false} ReplaceAllUnchanged(s: string, pat: string, rep: string)
    requires pat != [] && |rep| > |pat|
    ensures ReplaceAll(s, pat, rep) == s <==> !Occurs(s, pat)
    decreases |s|
  {
    if |s| < |pat| {
    } else if s[..|pat|] == pat {
      assert OccursAt(s, pat, 0);
      assert |ReplaceAll(s, pat, rep)| > |s|;
    } else {
      var r' := ReplaceAll(s[1..], pat, rep);
      ReplaceAllUnchanged(s[1..], pat, rep);
      OccursPastHead(s, pat);
      assert ReplaceAll(s, pat, rep) == [s[0]] + r';
      assert s == [s[0]] + s[1..];
      assert ([s[0]] + r')[1..] == r';
    }
  }

  /** A prefix that holds no first character of the pattern passes through
      `replace` unchanged. */
  lemma {:induction false} ReplaceAllSkipsPrefix(stem: string, tail: string, pat: string, rep: string)
    requires pat != [] && pat[0] !in stem
    ensures ReplaceAll(stem + tail, pat, rep) == stem + ReplaceAll(tail, pat, rep)
    decreases |stem|
  {
    if stem != [] {
      var s := stem + tail;
      assert s[1..] == stem[1..] + tail;
      ReplaceAllSkipsPrefix(stem[1..], tail, pat, rep);
      if |s| >= |pat| {
        assert s[..|pat|][0] == stem[0];
        assert s[..|pat|] != pat;
        assert ReplaceAll(s, pat, rep) == [s[0]] + ReplaceAll(s[1..], pat, rep);
        assert [stem[0]] + (stem[1..] + ReplaceAll(tail, pat, rep)) == stem + ReplaceAll(tail, pat, rep);
      } else {
        assert ReplaceAll(tail, pat, rep) == tail;
      }
    } else {
      assert stem + tail == tail;
    }
  }

  /** Replacing in the pattern itself gives the replacement. */
  lemma ReplaceAllOfPattern(pat: string, rep: string)
    requires pat != []
    ensures ReplaceAll(pat, pat, rep) == rep
  {
  }

  /** An occurrence after a prefix without the pattern's first character is
      the first one found, and it is replaced; the scan then goes on after
      it. */
  lemma ReplaceAllAtOccurrence(stem: string, tail: string, pat: string, rep: string)
    requires pat != [] && pat[0] !in stem
    ensures ReplaceAll(stem + pat + tail, pat, rep) == stem + rep + ReplaceAll(tail, pat, rep)
  {
    ReplaceAllSkipsPrefix(stem, pat + tail, pat, rep);
    assert stem + pat + tail == stem + (pat + tail);
    assert (pat + tail)[..|pat|] == pat && (pat + tail)[|pat|..] == tail;
  }

  /** A prefix of the result that holds no first character of the pattern
      was copied from the input, when the replacement starts with that
      character too. */
  lemma {:induction false} ReplaceAllPrefixFromInput(s: string, q: string, pat: string, rep: string)
    requires pat != [] && rep != [] && rep[0] == pat[0] && pat[0] !in q
    requires |q| <= |ReplaceAll(s, pat, rep)| && ReplaceAll(s, pat, rep)[..|q|] == q
    ensures |q| <= |s| && s[..|q|] == q
    decreases |s|
  {
    assert q != [] ==> q[0] == ReplaceAll(s, pat, rep)[0] && q[0] != pat[0];
    if q == [] || |s| < |pat| {
    } else if s[..|pat|] != pat {
      var r' := ReplaceAll(s[1..], pat, rep);
      assert ReplaceAll(s, pat, rep) == [s[0]] + r';
      assert r'[..|q| - 1] == q[1..];
      ReplaceAllPrefixFromInput(s[1..], q[1..], pat, rep);
      assert s[..|q|] == [s[0]] + s[1..][..|q| - 1];
    } else {
      assert false;
    }
  }

  /** The pattern's first character does not recur in the pattern; the
      replacement starts with that character and does not end with it; the
      pattern's second character is not in the replacement. Then the
      replacement can neither hold the pattern nor form one with the text
      around it. `.json` and `.archive.yaml` are such a pair. */
  predicate CannotRecreate(pat: string, rep: string)
  {
    && |pat| >= 2 && pat[0] !in pat[1..]
    && rep != [] && rep[0] == pat[0] && rep[|rep| - 1] != pat[0] && pat[1] !in rep
  }

  /** No occurrence starts in an inserted replacement. */
  lemma NoOccurrenceFromReplacement(rep: string, rest: string, pat: string, i: int)
    requires CannotRecreate(pat, rep) && !Occurs(rest, pat) && 0 <= i
    ensures !OccursAt(rep + rest, pat, i)
  {
    var r := rep + rest;
    if OccursAt(r, pat, i) {
      if i >= |rep| {
        assert rest[i - |rep|..i - |rep| + |pat|] == r[i..i + |pat|];
        assert OccursAt(rest, pat, i - |rep|);
      }
    }
  }

  /** No occurrence starts at a character copied because the pattern did not
      start there. */
  lemma NoOccurrenceFromCopied(s: string, pat: string, rep: string, i: int)
    requires CannotRecreate(pat, rep) && |s| >= |pat| && s[..|pat|] != pat
    requires !Occurs(ReplaceAll(s[1..], pat, rep), pat) && 0 <= i
    ensures !OccursAt([s[0]] + ReplaceAll(s[1..], pat, rep), pat, i)
  {
    var rest := ReplaceAll(s[1..], pat, rep);
    var r := [s[0]] + rest;
    if OccursAt(r, pat, i) {
      if i >= 1 {
        assert rest[i - 1..i - 1 + |pat|] == r[i..i + |pat|];
        assert OccursAt(rest, pat, i - 1);
      } else {
        assert rest[..|pat| - 1] == r[1..|pat|] == pat[1..];
        ReplaceAllPrefixFromInput(s[1..], pat[1..], pat, rep);
      }
    }
  }

  /** `replace` leaves no occurrence of the pattern behind. This is what
      separates replacing every occurrence from replacing only the first. */
  lemma {:induction false} ReplaceAllLeavesNoOccurrence(s: string, pat: string, rep: string)
    requires CannotRecreate(pat, rep)
    ensures !Occurs(ReplaceAll(s, pat, rep), pat)
    decreases |s|
  {
    if |s| >= |pat| {
      var r := ReplaceAll(s, pat, rep);
      if s[..|pat|] == pat {
        ReplaceAllLeavesNoOccurrence(s[|pat|..], pat, rep);
        forall i | 0 <= i <= |r|
          ensures !OccursAt(r, pat, i)
        {
          NoOccurrenceFromReplacement(rep, ReplaceAll(s[|pat|..], pat, rep), pat, i);
        }
      } else {
        ReplaceAllLeavesNoOccurrence(s[1..], pat, rep);
        forall i | 0 <= i <= |r|
          ensures !OccursAt(r, pat, i)
        {
          NoOccurrenceFromCopied(s, pat, rep, i);
        }
      }
    }
  }

  /** `s.split('/')[-1]`: the part of `s` after its last `/`, or all of `s`
      when it has none. */
  function LastSegment(s: string): (r: string)
    ensures |r| <= |s| && r == s[|s| - |r|..]
    ensures '/' !in r
    ensures |r| == |s| || s[|s| - |r| - 1] == '/'
    decreases |s|
  {
    if s == [] then []
    else if s[|s| - 1] == '/' then []
    else LastSegment(s[..|s| - 1]) + [s[|s| - 1]]
  }

  /** The last segment of `dir + "/" + name` is `name` when `name` holds no
      slash. */
  lemma {:induction false} LastSegmentAfterSlash(dir: string, name: string)
    requires '/' !in name
    ensures LastSegment(dir + "/" + name) == name
    decreases |name|
  {
    var s := dir + "/" + name;
    if name == [] {
      assert s[|s| - 1] == '/';
    } else {
      var init := name[..|name| - 1];
      assert s[..|s| - 1] == dir + "/" + init;
      assert s[|s| - 1] == name[|name| - 1];
      LastSegmentAfterSlash(dir, init);
      assert init + [name[|name| - 1]] == name;
    }
  }
}
