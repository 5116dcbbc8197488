/**
 * The PHP string built-ins that the link handling of Page.php relies on:
 * explode/implode, array_pop of an exploded path (the slug candidate),
 * str_contains, str_replace, trim with one character, and the decimal
 * rendering of an integer id. Each is given a concrete definition here,
 * together with an independent characterisation or an inverse.
 */
module PhpStrings {

  // ---------------------------------------------------------------------------
  // explode / implode with a one-character delimiter

  /** explode($sep, $s): the pieces between occurrences of sep, in order.
      Like PHP, the empty string explodes to one empty piece. */
  function Explode(sep: char, s: string): (parts: seq<string>)
    ensures |parts| >= 1
    ensures forall i :: 0 <= i < |parts| ==> sep !in parts[i] && |parts[i]| <= |s|
    decreases |s|
  {
    if |s| == 0 then [""]
    else if s[0] == sep then [""] + Explode(sep, s[1..])
    else
      var rest := Explode(sep, s[1..]);
      [[s[0]] + rest[0]] + rest[1..]
  }

  /** implode($sep, $parts): the pieces joined with sep between neighbours. */
  function Implode(sep: char, parts: seq<string>): string
    decreases |parts|
  {
    if |parts| == 0 then ""
    else if |parts| == 1 then parts[0]
    else parts[0] + [sep] + Implode(sep, parts[1..])
  }

  /** implode undoes explode. */
  lemma {:induction false} ImplodeExplode(sep: char, s: string)
    ensures Implode(sep, Explode(sep, s)) == s
    decreases |s|
  {
    if |s| > 0 {
      var rest := Explode(sep, s[1..]);
      ImplodeExplode(sep, s[1..]);
      if s[0] == sep {
        assert Explode(sep, s) == [""] + rest;
        if |rest| == 1 {
          assert Implode(sep, [""] + rest) == "" + [sep] + rest[0];
        } else {
          assert ([""] + rest)[1..] == rest;
        }
        assert s == [sep] + s[1..];
      } else {
        var parts := [[s[0]] + rest[0]] + rest[1..];
        assert Explode(sep, s) == parts;
        if |rest| == 1 {
          assert Implode(sep, parts) == [s[0]] + rest[0];
        } else {
          assert parts[1..] == rest[1..];
          assert Implode(sep, rest) == rest[0] + [sep] + Implode(sep, rest[1..]);
        }
        assert s == [s[0]] + s[1..];
      }
    }
  }

  /** Exploding a string that starts with a separator-free piece a. */
  lemma {:induction false} ExplodeAfterPiece(sep: char, a: string, t: string)
    requires sep !in a
    ensures Explode(sep, a + t) == [a + Explode(sep, t)[0]] + Explode(sep, t)[1..]
    decreases |a|
  {
    var e := Explode(sep, t);
    if |a| > 0 {
      ExplodeAfterPiece(sep, a[1..], t);
      var rest := Explode(sep, a[1..] + t);
      assert rest[0] == a[1..] + e[0] && rest[1..] == e[1..];
      assert (a + t)[1..] == a[1..] + t;
      assert (a + t)[0] == a[0] && a[0] != sep;
      assert Explode(sep, a + t) == [[a[0]] + rest[0]] + rest[1..];
      assert [a[0]] + (a[1..] + e[0]) == a + e[0];
    } else {
      assert a + t == t;
      assert a + e[0] == e[0];
      assert e == [e[0]] + e[1..];
    }
  }

  /** A leading separator gives an empty first piece. */
  lemma ExplodeAfterSeparator(sep: char, t: string)
    ensures Explode(sep, [sep] + t) == [""] + Explode(sep, t)
  {
    assert ([sep] + t)[1..] == t;
  }

  /** A separator-free piece followed by a separator becomes a piece of its own. */
  lemma ExplodePieceThenSeparator(sep: char, a: string, t: string)
    requires sep !in a
    ensures Explode(sep, a + ([sep] + t)) == [a] + Explode(sep, t)
  {
    var e := Explode(sep, [sep] + t);
    ExplodeAfterSeparator(sep, t);
    ExplodeAfterPiece(sep, a, [sep] + t);
    assert e[0] == "" && e[1..] == Explode(sep, t);
    assert a + e[0] == a;
  }

  /** explode undoes implode when the leading pieces hold no separator;
      the last piece is itself exploded. */
  lemma {:induction false} ExplodeImplode(sep: char, ps: seq<string>, last: string)
    requires forall i :: 0 <= i < |ps| ==> sep !in ps[i]
    ensures Explode(sep, Implode(sep, ps + [last])) == ps + Explode(sep, last)
    decreases |ps|
  {
    if |ps| > 0 {
      var tail := ps[1..] + [last];
      var rest := Implode(sep, tail);
      assert (ps + [last])[1..] == tail;
      assert Implode(sep, ps + [last]) == ps[0] + ([sep] + rest);
      ExplodeImplode(sep, ps[1..], last);
      ExplodePieceThenSeparator(sep, ps[0], rest);
      assert ps == [ps[0]] + ps[1..];
    } else {
      assert ps + [last] == [last];
    }
  }

  // ---------------------------------------------------------------------------
  // array_pop(explode('/', $href)): the slug candidate of a link

  /** The last piece of explode('/', s), which is what array_pop returns. */
  function LastSegment(s: string): (r: string)
    ensures '/' !in r && |r| <= |s|
  {
    var parts := Explode('/', s);
    parts[|parts| - 1]
  }

  /** A string holds the separator exactly when it explodes into several pieces. */
  lemma SeparatorIffSeveralPieces(sep: char, s: string)
    ensures sep in s <==> |Explode(sep, s)| > 1
  {
    var parts := Explode(sep, s);
    ImplodeExplode(sep, s);
    if |parts| > 1 {
      assert s == parts[0] + [sep] + Implode(sep, parts[1..]);
      assert s[|parts[0]|] == sep;
    } else {
      assert s == parts[0];
    }
  }

  /** How the last piece of s relates to the last piece of s without its
      first character. */
  lemma LastSegmentStep(s: string)
    requires |s| > 0
    ensures s[0] == '/' || '/' in s[1..] ==> LastSegment(s) == LastSegment(s[1..])
    ensures s[0] != '/' && '/' !in s[1..] ==> LastSegment(s) == s
  {
    var t := s[1..];
    var rest := Explode('/', t);
    SeparatorIffSeveralPieces('/', t);
    if s[0] == '/' {
      assert Explode('/', s) == [""] + rest;
    } else {
      assert Explode('/', s) == [[s[0]] + rest[0]] + rest[1..];
      if '/' !in t {
        ImplodeExplode('/', t);
        assert rest[0] == t;
        assert s == [s[0]] + t;
      }
    }
  }

  /** The last piece is the text after the last '/': it holds no '/', it is a
      suffix of s, it is the whole of s when s has no '/', and otherwise the
      character just before it is a '/' (so it is empty when s ends in '/'). */
  lemma {:induction false} LastSegmentIsTextAfterLastSlash(s: string)
    ensures '/' !in LastSegment(s)
    ensures |LastSegment(s)| <= |s| && s[|s| - |LastSegment(s)|..] == LastSegment(s)
    ensures '/' !in s ==> LastSegment(s) == s
    ensures '/' in s ==> s[|s| - |LastSegment(s)| - 1] == '/'
    decreases |s|
  {
    if |s| > 0 {
      var t := s[1..];
      assert s == [s[0]] + t;
      LastSegmentIsTextAfterLastSlash(t);
      LastSegmentStep(s);
      var r := LastSegment(s);
      if s[0] == '/' || '/' in t {
        assert r == LastSegment(t);
        assert s[|s| - |r|..] == t[|t| - |r|..];
        if '/' in t {
          assert s[|s| - |r| - 1] == t[|t| - |r| - 1];
        } else {
          assert |r| == |t|;
        }
      } else {
        assert r == s;
      }
    }
  }

  // ---------------------------------------------------------------------------
  // str_contains and str_replace

  /** needle occurs in haystack starting at index i. */
  predicate OccursAt(haystack: string, needle: string, i: nat)
  {
    i + |needle| <= |haystack| && haystack[i..i + |needle|] == needle
  }

  /** str_contains($haystack, $needle); the empty needle is always contained. */
  predicate StrContains(haystack: string, needle: string): (r: bool)
    ensures |needle| == 0 ==> r
    ensures r ==> |needle| <= |haystack|
  {
    assert |needle| == 0 ==> OccursAt(haystack, needle, 0);
    exists i: nat :: i <= |haystack| && OccursAt(haystack, needle, i)
  }

  lemma StrContainsMiddle(a: string, b: string, c: string)
    ensures OccursAt(a + b + c, b, |a|) && StrContains(a + b + c, b)
  {
    assert (a + b + c)[|a|..|a| + |b|] == b;
    assert OccursAt(a + b + c, b, |a|);
  }

  /** str_replace($search, $replace, $subject): every occurrence of search,
      found left to right without overlap, is replaced. An empty search
      leaves the subject as it is. */
  function StrReplace(search: string, replace: string, subject: string): (r: string)
    ensures |replace| == |search| ==> |r| == |subject|
    decreases |subject|
  {
    if |search| == 0 || |subject| < |search| then subject
    else if subject[..|search|] == search then
      replace + StrReplace(search, replace, subject[|search|..])
    else
      [subject[0]] + StrReplace(search, replace, subject[1..])
  }

  /** A subject in which search does not occur is returned unchanged. */
  lemma {:induction false} StrReplaceWithoutOccurrence(search: string, replace: string, subject: string)
    requires !StrContains(subject, search)
    ensures StrReplace(search, replace, subject) == subject
    decreases |subject|
  {
    if |search| > 0 && |subject| >= |search| {
      assert !OccursAt(subject, search, 0);
      forall i: nat ensures !OccursAt(subject[1..], search, i) {
        if i + |search| <= |subject[1..]| {
          assert subject[1..][i..i + |search|] == subject[i + 1..i + 1 + |search|];
          assert !OccursAt(subject, search, i + 1);
        }
      }
      StrReplaceWithoutOccurrence(search, replace, subject[1..]);
      assert subject == [subject[0]] + subject[1..];
    }
  }

  /** An occurrence at the front becomes replace. */
  lemma StrReplaceAtOccurrence(search: string, replace: string, b: string)
    requires |search| > 0
    ensures StrReplace(search, replace, search + b) == replace + StrReplace(search, replace, b)
  {
    assert (search + b)[..|search|] == search;
    assert (search + b)[|search|..] == b;
  }

  /** A first character that does not start an occurrence is copied. */
  lemma StrReplaceCopiesHead(search: string, replace: string, s: string)
    requires |search| > 0 && |search| <= |s| && !OccursAt(s, search, 0)
    ensures StrReplace(search, replace, s) == [s[0]] + StrReplace(search, replace, s[1..])
  {
    assert s[0..|search|] == s[..|search|];
  }

  /** Dropping the first character of a keeps the text before the occurrence
      free of occurrences. */
  lemma NoEarlierOccurrenceAfterHead(search: string, a: string, b: string)
    requires |a| > 0
    requires forall i: nat :: i < |a| ==> !OccursAt(a + search + b, search, i)
    ensures forall i: nat :: i < |a| - 1 ==> !OccursAt(a[1..] + search + b, search, i)
  {
    var s := a + search + b;
    var t := a[1..] + search + b;
    assert t == s[1..];
    forall i: nat | i < |a| - 1 ensures !OccursAt(t, search, i) {
      assert !OccursAt(s, search, i + 1);
      if i + |search| <= |t| {
        assert t[i..i + |search|] == s[i + 1..i + 1 + |search|];
      }
    }
  }

  /** The leftmost occurrence is the one replaced first: text before it is
      copied, the occurrence becomes replace, and the rest is processed on. */
  lemma {:induction false} StrReplaceLeftmost(search: string, replace: string, a: string, b: string)
    requires |search| > 0
    requires forall i: nat :: i < |a| ==> !OccursAt(a + search + b, search, i)
    ensures StrReplace(search, replace, a + search + b) == a + replace + StrReplace(search, replace, b)
    decreases |a|
  {
    var s := a + search + b;
    if |a| == 0 {
      assert s == search + b;
      StrReplaceAtOccurrence(search, replace, b);
    } else {
      var a' := a[1..];
      assert s[1..] == a' + search + b;
      NoEarlierOccurrenceAfterHead(search, a, b);
      StrReplaceCopiesHead(search, replace, s);
      StrReplaceLeftmost(search, replace, a', b);
      assert s[0] == a[0] && a == [a[0]] + a';
    }
  }

  /** If search occurs, replace occurs in the result. */
  lemma {:induction false} StrReplaceInsertsReplacement(search: string, replace: string, subject: string)
    requires |search| > 0 && StrContains(subject, search)
    ensures StrContains(StrReplace(search, replace, subject), replace)
    decreases |subject|
  {
    var i: nat :| OccursAt(subject, search, i);
    assert OccursAt(subject, search, i);
    var r := StrReplace(search, replace, subject);
    if subject[..|search|] == search {
      assert r[..|replace|] == replace;
      assert OccursAt(r, replace, 0);
    } else {
      assert i > 0 && i + |search| <= |subject|;
      assert subject[1..][i - 1..i - 1 + |search|] == subject[i..i + |search|];
      assert OccursAt(subject[1..], search, i - 1);
      StrReplaceInsertsReplacement(search, replace, subject[1..]);
      var rest := StrReplace(search, replace, subject[1..]);
      var j: nat :| OccursAt(rest, replace, j);
      assert OccursAt(rest, replace, j);
      assert r == [subject[0]] + rest;
      assert r[j + 1..j + 1 + |replace|] == rest[j..j + |replace|];
      assert OccursAt(r, replace, j + 1);
    }
  }

  /** Within the first k characters, the result either copies the subject or
      shows the first character of replace (a replacement started there). */
  lemma {:induction false} StrReplaceKeepsPrefix(search: string, replace: string, subject: string, k: nat)
    requires |search| > 0 && |replace| > 0 && k <= |subject|
    ensures var r := StrReplace(search, replace, subject);
      (k <= |r| && r[..k] == subject[..k]) ||
      (exists j: nat :: j < k && j < |r| && r[j] == replace[0])
    decreases |subject|
  {
    var r := StrReplace(search, replace, subject);
    if k == 0 || |subject| < |search| {
    } else if subject[..|search|] == search {
      assert r[0] == replace[0];
    } else {
      var rest := StrReplace(search, replace, subject[1..]);
      assert r == [subject[0]] + rest;
      StrReplaceKeepsPrefix(search, replace, subject[1..], k - 1);
      if k - 1 <= |rest| && rest[..k - 1] == subject[1..][..k - 1] {
        assert r[..k] == [subject[0]] + rest[..k - 1];
        assert subject[..k] == [subject[0]] + subject[1..][..k - 1];
      } else {
        var j: nat :| j < k - 1 && j < |rest| && rest[j] == replace[0];
        assert r[j + 1] == replace[0];
      }
    }
  }

  /** A replacement put in front of text free of search leaves no occurrence,
      when search cannot begin inside the replacement. */
  lemma ReplacementBeforeClearText(search: string, replace: string, rest: string)
    requires |search| > 0 && search[0] !in replace
    requires !StrContains(rest, search)
    ensures !StrContains(replace + rest, search)
  {
    var r := replace + rest;
    forall i: nat ensures !OccursAt(r, search, i) {
      if i < |replace| {
        if i + |search| <= |r| {
          assert r[i..i + |search|][0] == replace[i];
        }
      } else if i + |search| <= |r| {
        assert r[i..i + |search|] == rest[i - |replace|..i - |replace| + |search|];
        assert !OccursAt(rest, search, i - |replace|);
      }
    }
  }

  /** A copied first character does not start an occurrence, when the
      subject does not start with search and search cannot run into a
      replacement. */
  lemma CopiedHeadStartsNoOccurrence(search: string, replace: string, subject: string)
    requires |search| > 0 && |replace| > 0 && replace[0] !in search
    requires |subject| >= |search| && subject[..|search|] != search
    ensures !OccursAt([subject[0]] + StrReplace(search, replace, subject[1..]), search, 0)
  {
    var rest := StrReplace(search, replace, subject[1..]);
    var r := [subject[0]] + rest;
    if |search| <= |r| {
      StrReplaceKeepsPrefix(search, replace, subject[1..], |search| - 1);
      if |search| - 1 <= |rest| && rest[..|search| - 1] == subject[1..][..|search| - 1] {
        assert r[..|search|] == [subject[0]] + rest[..|search| - 1];
        assert subject[..|search|] == [subject[0]] + subject[1..][..|search| - 1];
      } else {
        var j: nat :| j < |search| - 1 && j < |rest| && rest[j] == replace[0];
        assert r[..|search|][j + 1] == replace[0];
      }
    }
  }

  /** When search cannot begin inside replace (its first character does not
      occur there) and cannot run into one (it does not contain replace's
      first character), no occurrence of search is left after str_replace. */
  lemma {:induction false} StrReplaceRemovesAll(search: string, replace: string, subject: string)
    requires |search| > 0 && |replace| > 0
    requires search[0] !in replace && replace[0] !in search
    ensures !StrContains(StrReplace(search, replace, subject), search)
    decreases |subject|
  {
    var r := StrReplace(search, replace, subject);
    if |subject| < |search| {
      assert r == subject;
      forall i: nat ensures !OccursAt(r, search, i) {
      }
    } else if subject[..|search|] == search {
      StrReplaceRemovesAll(search, replace, subject[|search|..]);
      ReplacementBeforeClearText(search, replace, StrReplace(search, replace, subject[|search|..]));
    } else {
      var rest := StrReplace(search, replace, subject[1..]);
      assert r == [subject[0]] + rest;
      StrReplaceRemovesAll(search, replace, subject[1..]);
      CopiedHeadStartsNoOccurrence(search, replace, subject);
      forall i: nat | 0 < i ensures !OccursAt(r, search, i) {
        if i + |search| <= |r| {
          assert r[i..i + |search|] == rest[i - 1..i - 1 + |search|];
          assert !OccursAt(rest, search, i - 1);
        }
      }
    }
  }

  // ---------------------------------------------------------------------------
  // trim($s, $c) with a single character

  function TrimLeft(c: char, s: string): (r: string)
    ensures |r| <= |s| && r == s[|s| - |r|..]
    ensures r == [] || r[0] != c
    decreases |s|
  {
    if |s| > 0 && s[0] == c then TrimLeft(c, s[1..]) else s
  }

  function TrimRight(c: char, s: string): (r: string)
    ensures |r| <= |s| && r == s[..|r|]
    ensures r == [] || r[|r| - 1] != c
    decreases |s|
  {
    if |s| > 0 && s[|s| - 1] == c then TrimRight(c, s[..|s| - 1]) else s
  }

  /** trim($s, $c): c removed from both ends. */
  function Trim(c: char, s: string): (r: string)
    ensures |r| <= |s|
    ensures r == [] || (r[0] != c && r[|r| - 1] != c)
  {
    TrimRight(c, TrimLeft(c, s))
  }

  /** Every character of s is c. */
  predicate AllAre(c: char, s: string)
  {
    forall k :: 0 <= k < |s| ==> s[k] == c
  }

  /** t is s with a run of c cut from each end. */
  predicate PaddedBy(c: char, s: string, t: string, i: nat, j: nat)
  {
    i <= j <= |s| && t == s[i..j] && AllAre(c, s[..i]) && AllAre(c, s[j..])
  }

  /** trim's left half removes exactly the leading run of c. */
  lemma {:induction false} TrimLeftSpec(c: char, s: string)
    ensures PaddedBy(c, s, TrimLeft(c, s), |s| - |TrimLeft(c, s)|, |s|)
    decreases |s|
  {
    var t := TrimLeft(c, s);
    var i := |s| - |t|;
    assert s[i..|s|] == s[i..] == t;
    assert s[|s|..] == [];
    if |s| > 0 && s[0] == c {
      var rest := s[1..];
      TrimLeftSpec(c, rest);
      assert AllAre(c, rest[..i - 1]);
      var pre := s[..i];
      forall k | 0 <= k < |pre|
        ensures pre[k] == c
      {
        if k > 0 {
          assert pre[k] == rest[..i - 1][k - 1];
        }
      }
    } else {
      assert s[..i] == [];
    }
  }

  /** trim's right half removes exactly the trailing run of c. */
  lemma {:induction false} TrimRightSpec(c: char, s: string)
    ensures PaddedBy(c, s, TrimRight(c, s), 0, |TrimRight(c, s)|)
    decreases |s|
  {
    var t := TrimRight(c, s);
    var n := |t|;
    assert s[0..n] == s[..n] == t;
    assert s[..0] == [];
    if |s| > 0 && s[|s| - 1] == c {
      var s' := s[..|s| - 1];
      TrimRightSpec(c, s');
      assert AllAre(c, s'[n..]);
      var post := s[n..];
      forall k | 0 <= k < |post|
        ensures post[k] == c
      {
        if k < |post| - 1 {
          assert post[k] == s'[n..][k];
        }
      }
    } else {
      assert s[n..] == [];
    }
  }

  /** trim cuts exactly the runs of c at both ends: what remains is a
      contiguous part of s and everything cut is c (Trim's own contract adds
      that the remainder neither starts nor ends with c). */
  lemma TrimSpec(c: char, s: string)
    ensures exists i: nat, j: nat :: PaddedBy(c, s, Trim(c, s), i, j)
  {
    var l := TrimLeft(c, s);
    var t := Trim(c, s);
    TrimLeftSpec(c, s);
    TrimRightSpec(c, l);
    var i := |s| - |l|;
    var j := i + |t|;
    assert l == s[i..];
    assert t == l[..|t|] == s[i..j];
    assert s[j..] == l[|t|..];
    assert PaddedBy(c, s, t, i, j);
  }

  // ---------------------------------------------------------------------------
  // Decimal rendering of integer ids (PHP's int-to-string conversion)

  const Digits: string := "0123456789"

  predicate IsDigit(ch: char)
  {
    '0' <= ch <= '9'
  }

  function DigitValue(ch: char): nat
    requires IsDigit(ch)
  {
    (ch - '0') as nat
  }

  /** The decimal form of n, as PHP writes an int in a string context. */
  function NatToDecimal(n: nat): (r: string)
    ensures |r| >= 1 && forall k :: 0 <= k < |r| ==> IsDigit(r[k])
    ensures r[0] == '0' ==> n == 0
    decreases n
  {
    if n < 10 then [Digits[n]] else NatToDecimal(n / 10) + [Digits[n % 10]]
  }

  /** The value of a string of decimal digits. */
  function DecimalValue(s: string): nat
    requires forall k :: 0 <= k < |s| ==> IsDigit(s[k])
    decreases |s|
  {
    if |s| == 0 then 0 else DecimalValue(s[..|s| - 1]) * 10 + DigitValue(s[|s| - 1])
  }

  /** Reading the decimal form back gives the number. */
  lemma {:induction false} DecimalRoundTrip(n: nat)
    ensures DecimalValue(NatToDecimal(n)) == n
    decreases n
  {
    var r := NatToDecimal(n);
    if n >= 10 {
      DecimalRoundTrip(n / 10);
      assert r[..|r| - 1] == NatToDecimal(n / 10);
    }
  }

  /** Distinct ids render to distinct strings. */
  lemma DecimalInjective(m: nat, n: nat)
    requires NatToDecimal(m) == NatToDecimal(n)
    ensures m == n
  {
    DecimalRoundTrip(m);
    DecimalRoundTrip(n);
  }
}
