/** String vocabulary: the JavaScript/Python string methods the application
    relies on (`trim`/`strip`, `endsWith`, `includes`, `split`, `join`) and the
    ASCII character classes of its regular expressions. */
module Text {
  import Seqs

  /** The whitespace both `String.prototype.trim` and `str.strip` remove:
      the six ASCII whitespace characters, the no-break space, the Unicode
      space separators and the line and paragraph separators. */
  predicate IsSpace(c: char)
  {
    || c == ' ' || c == '\t' || c == '\n' || c == '\r' || c == '\U{0B}' || c == '\U{0C}'
    || c == '\U{A0}' || c == '\U{1680}' || ('\U{2000}' <= c <= '\U{200A}')
    || c == '\U{2028}' || c == '\U{2029}' || c == '\U{202F}' || c == '\U{205F}' || c == '\U{3000}'
  }

  /** Drops leading whitespace. */
  function TrimStart(s: string): (r: string)
    ensures |r| <= |s| && r == s[|s| - |r|..]
    ensures forall i :: 0 <= i < |s| - |r| ==> IsSpace(s[i])
    ensures |r| > 0 ==> !IsSpace(r[0])
  {
    if |s| > 0 && IsSpace(s[0]) then TrimStart(s[1..]) else s
  }

  /** Drops trailing whitespace. */
  function TrimEnd(s: string): (r: string)
    ensures |r| <= |s| && r == s[..|r|]
    ensures forall i :: |r| <= i < |s| ==> IsSpace(s[i])
    ensures |r| > 0 ==> !IsSpace(r[|r| - 1])
  {
    if |s| > 0 && IsSpace(s[|s| - 1]) then TrimEnd(s[..|s| - 1]) else s
  }

  /** `s.trim()` in JavaScript, `s.strip()` in Python, on the whitespace both
      remove. */
  function Trim(s: string): (r: string)
    ensures |r| <= |s|
    ensures |r| > 0 ==> !IsSpace(r[0]) && !IsSpace(r[|r| - 1])
    ensures r == [] <==> forall i :: 0 <= i < |s| ==> IsSpace(s[i])
  {
    var t := TrimStart(s);
    var r := TrimEnd(t);
    assert |r| > 0 ==> r[0] == t[0];
    assert r == [] ==> t == [];
    r
  }

  /** No character lies outside the Basic Multilingual Plane: each is one
      UTF-16 code unit. */
  predicate InBmp(s: string)
  {
    forall i :: 0 <= i < |s| ==> s[i] as int <= 0xFFFF
  }

  /** The length JavaScript's `.length` reports: UTF-16 code units, two
      for every character outside the Basic Multilingual Plane. */
  function Utf16Length(s: string): (n: nat)
    ensures |s| <= n <= 2 * |s|
  {
    if |s| == 0 then 0
    else (if s[0] as int > 0xFFFF then 2 else 1) + Utf16Length(s[1..])
  }

  /** The length equals the number of characters exactly within the Basic
      Multilingual Plane, and is twice it when every character lies outside. */
  lemma {:induction false} Utf16LengthCountsPlanes(s: string)
    ensures Utf16Length(s) == |s| <==> InBmp(s)
    ensures (forall i :: 0 <= i < |s| ==> s[i] as int > 0xFFFF) ==> Utf16Length(s) == 2 * |s|
  {
    if |s| > 0 {
      Utf16LengthCountsPlanes(s[1..]);
      assert InBmp(s) <==> s[0] as int <= 0xFFFF && InBmp(s[1..]) by {
        if s[0] as int <= 0xFFFF && InBmp(s[1..]) {
          forall i | 0 <= i < |s| ensures s[i] as int <= 0xFFFF {
            if i > 0 { assert s[i] == s[1..][i - 1]; }
          }
        }
      }
      if forall i :: 0 <= i < |s| ==> s[i] as int > 0xFFFF {
        assert forall i :: 0 <= i < |s[1..]| ==> s[1..][i] as int > 0xFFFF by {
          forall i | 0 <= i < |s[1..]| ensures s[1..][i] as int > 0xFFFF {
            assert s[1..][i] == s[i + 1];
          }
        }
      }
    }
  }

  lemma {:induction false} Utf16LengthAppend(a: string, b: string)
    ensures Utf16Length(a + b) == Utf16Length(a) + Utf16Length(b)
  {
    if |a| == 0 {
      assert a + b == b;
    } else {
      assert (a + b)[0] == a[0] && (a + b)[1..] == a[1..] + b;
      Utf16LengthAppend(a[1..], b);
    }
  }

  /** `s.substring(0, n)`: the characters of `s` up to the first one that
      would pass `n` UTF-16 code units. */
  function Utf16Prefix(s: string, n: nat): (r: string)
    ensures r <= s
  {
    if |s| == 0 then ""
    else
      var w := if s[0] as int > 0xFFFF then 2 else 1;
      if w > n then "" else [s[0]] + Utf16Prefix(s[1..], n - w)
  }

  /** The cut fits in `n` code units. */
  lemma {:induction false} Utf16PrefixFits(s: string, n: nat)
    ensures Utf16Length(Utf16Prefix(s, n)) <= n
  {
    if |s| > 0 {
      var w := if s[0] as int > 0xFFFF then 2 else 1;
      if w <= n {
        var rest := Utf16Prefix(s[1..], n - w);
        Utf16PrefixFits(s[1..], n - w);
        Utf16LengthCons(s[0], rest);
      }
    }
  }

  /** A string that fits in `n` code units is kept whole. */
  lemma {:induction false} Utf16PrefixWhole(s: string, n: nat)
    requires Utf16Length(s) <= n
    ensures Utf16Prefix(s, n) == s
  {
    if |s| > 0 {
      var w := if s[0] as int > 0xFFFF then 2 else 1;
      assert s == [s[0]] + s[1..];
      Utf16LengthCons(s[0], s[1..]);
      Utf16PrefixWhole(s[1..], n - w);
    }
  }

  lemma Utf16LengthCons(c: char, t: string)
    ensures Utf16Length([c] + t) == (if c as int > 0xFFFF then 2 else 1) + Utf16Length(t)
  {
    assert ([c] + t)[1..] == t;
  }

  /** The cut is the longest prefix that fits: one more character would
      pass `n` code units. */
  lemma {:induction false} Utf16PrefixIsLongest(s: string, n: nat)
    ensures |Utf16Prefix(s, n)| < |s| ==> Utf16Length(s[..|Utf16Prefix(s, n)| + 1]) > n
  {
    if |s| > 0 {
      var w := if s[0] as int > 0xFFFF then 2 else 1;
      var r := Utf16Prefix(s, n);
      if w > n {
        assert r == "";
        Utf16LengthOfPrefix(s, 1);
      } else {
        var rest := Utf16Prefix(s[1..], n - w);
        Utf16PrefixIsLongest(s[1..], n - w);
        assert r == [s[0]] + rest;
        if |r| < |s| {
          Utf16LengthOfPrefix(s, |r| + 1);
        }
      }
    }
  }

  /** Counting the code units of a non-empty prefix starts with its first
      character. */
  lemma Utf16LengthOfPrefix(s: string, k: nat)
    requires 0 < k <= |s|
    ensures Utf16Length(s[..k]) == (if s[0] as int > 0xFFFF then 2 else 1) + Utf16Length(s[1..][..k - 1])
  {
    var t := s[..k];
    assert t[0] == s[0] && t[1..] == s[1..][..k - 1];
  }

  /** Within the Basic Multilingual Plane the cut is the first `n`
      characters. */
  lemma {:induction false} Utf16PrefixInBmp(s: string, n: nat)
    requires InBmp(s)
    ensures |Utf16Prefix(s, n)| == if |s| <= n then |s| else n
  {
    if |s| > 0 && n > 0 {
      assert InBmp(s[1..]) by {
        forall i | 0 <= i < |s[1..]| ensures s[1..][i] as int <= 0xFFFF {
          assert s[1..][i] == s[i + 1];
        }
      }
      Utf16PrefixInBmp(s[1..], n - 1);
    }
  }

  /** Empty, or whitespace only: `s.trim() === ''`. */
  predicate IsBlank(s: string)
  {
    Trim(s) == ""
  }

  /** A blank string is exactly one made of whitespace characters. */
  lemma BlankIsAllSpace(s: string)
    ensures IsBlank(s) <==> forall i :: 0 <= i < |s| ==> IsSpace(s[i])
  {
  }

  /** A single leading blank never survives trimming. */
  lemma TrimLeadingSpace(s: string)
    ensures Trim([' '] + s) == Trim(s)
  {
    assert ([' '] + s)[1..] == s;
  }

  /** Trimming a string that neither starts nor ends with whitespace leaves it as is. */
  lemma TrimOfTrimmed(s: string)
    requires |s| > 0 ==> !IsSpace(s[0]) && !IsSpace(s[|s| - 1])
    ensures Trim(s) == s
  {
  }

  /** Trimming keeps a suffix that holds no whitespace at all. */
  lemma EndsWithSurvivesTrim(s: string, suffix: string)
    requires |suffix| > 0 && EndsWith(s, suffix)
    requires forall i :: 0 <= i < |suffix| ==> !IsSpace(suffix[i])
    ensures EndsWith(Trim(s), suffix)
  {
    var t := TrimStart(s);
    assert s[|s| - |suffix|..][0] == suffix[0];
    assert |s| - |t| <= |s| - |suffix|;
    assert t[|t| - |suffix|..] == s[|s| - |suffix|..];
    assert t[|t| - 1] == suffix[|suffix| - 1];
    assert TrimEnd(t) == t;
  }

  predicate StartsWith(s: string, prefix: string)
  {
    |prefix| <= |s| && s[..|prefix|] == prefix
  }

  /** `s.endsWith(suffix)`. */
  predicate EndsWith(s: string, suffix: string)
  {
    |suffix| <= |s| && s[|s| - |suffix|..] == suffix
  }

  /** `s.includes(sub)` / Python's `sub in s`: `sub` occurs at some position. */
  predicate Contains(s: string, sub: string)
    decreases |s|
  {
    StartsWith(s, sub) || (|s| > 0 && Contains(s[1..], sub))
  }

  /** A string built around `sub` contains it. */
  lemma {:induction false} ContainsInside(a: string, sub: string, b: string)
    ensures Contains(a + sub + b, sub)
    decreases |a|
  {
    if |a| == 0 {
      assert a + sub + b == sub + b;
      assert (sub + b)[..|sub|] == sub;
    } else {
      assert (a + sub + b)[1..] == a[1..] + sub + b;
      ContainsInside(a[1..], sub, b);
    }
  }

  predicate IsAsciiDigit(c: char) { '0' <= c <= '9' }
  predicate IsAsciiUpper(c: char) { 'A' <= c <= 'Z' }
  predicate IsAsciiLower(c: char) { 'a' <= c <= 'z' }

  /** ASCII case folding, character by character: an upper-case letter
      becomes its lower-case twin, everything else is kept. Two strings
      fold alike exactly when they differ only in the case of ASCII letters. */
  function FoldCase(s: string): (r: string)
    ensures |r| == |s|
    ensures forall i :: 0 <= i < |s| ==> !IsAsciiUpper(r[i])
    ensures forall i :: 0 <= i < |s| ==>
      if IsAsciiUpper(s[i]) then IsAsciiLower(r[i]) && r[i] as int - s[i] as int == 32 else r[i] == s[i]
  {
    seq(|s|, i requires 0 <= i < |s| => if IsAsciiUpper(s[i]) then (s[i] as int + 32) as char else s[i])
  }

  /** Folding is idempotent, and a string without upper-case ASCII letters
      is its own folding. */
  lemma FoldCaseIdempotent(s: string)
    ensures FoldCase(FoldCase(s)) == FoldCase(s)
    ensures (forall i :: 0 <= i < |s| ==> !IsAsciiUpper(s[i])) ==> FoldCase(s) == s
  {
  }

  /** `/[A-Z]/.test(s)`. */
  predicate HasUpper(s: string) { exists i :: 0 <= i < |s| && IsAsciiUpper(s[i]) }
  /** `/[a-z]/.test(s)`. */
  predicate HasLower(s: string) { exists i :: 0 <= i < |s| && IsAsciiLower(s[i]) }
  /** `/[0-9]/.test(s)`. */
  predicate HasDigit(s: string) { exists i :: 0 <= i < |s| && IsAsciiDigit(s[i]) }
  /** Every character is a decimal digit. */
  predicate AllDigits(s: string) { forall i :: 0 <= i < |s| ==> IsAsciiDigit(s[i]) }

  function DigitChar(d: nat): (c: char)
    requires d < 10
    ensures IsAsciiDigit(c) && c as int - '0' as int == d
  {
    ('0' as int + d) as char
  }

  /** Decimal rendering of a natural number (template-literal interpolation). */
  function NatToString(n: nat): (r: string)
    ensures |r| > 0 && AllDigits(r)
    decreases n
  {
    if n < 10 then [DigitChar(n)] else NatToString(n / 10) + [DigitChar(n % 10)]
  }

  /** Value of a string of decimal digits. */
  function DigitsValue(s: string): nat
    requires AllDigits(s)
  {
    if |s| == 0 then 0
    else DigitsValue(s[..|s| - 1]) * 10 + (s[|s| - 1] as int - '0' as int)
  }

  /** Decimal rendering is faithful: reading the digits back gives `n`, so
      distinct numbers render differently. */
  lemma {:induction false} NatToStringRoundTrip(n: nat)
    ensures DigitsValue(NatToString(n)) == n
    decreases n
  {
    var r := NatToString(n);
    if n >= 10 {
      NatToStringRoundTrip(n / 10);
      assert r[..|r| - 1] == NatToString(n / 10);
    }
  }

  /** `s.split(sep)` with a one-character separator: every piece between
      separators, including empty ones at either end. */
  function Split(s: string, sep: char): (r: seq<string>)
    ensures |r| == Seqs.Occurrences(s, sep) + 1
    ensures forall i :: 0 <= i < |r| ==> sep !in r[i]
  {
    if |s| == 0 then [""]
    else
      var rest := Split(s[1..], sep);
      if s[0] == sep then [""] + rest
      else [[s[0]] + rest[0]] + rest[1..]
  }

  /** `parts.join(sep)`. */
  function Join(parts: seq<string>, sep: string): string
  {
    if |parts| == 0 then ""
    else if |parts| == 1 then parts[0]
    else parts[0] + sep + Join(parts[1..], sep)
  }

  /** Splitting loses nothing: joining the pieces back gives the input. */
  lemma {:induction false} SplitJoin(s: string, sep: char)
    ensures Join(Split(s, sep), [sep]) == s
  {
    if |s| > 0 {
      var rest := Split(s[1..], sep);
      SplitJoin(s[1..], sep);
      assert s == [s[0]] + s[1..];
      if s[0] == sep {
        var parts := [""] + rest;
        assert Split(s, sep) == parts;
        assert parts[1..] == rest;
        assert Join(parts, [sep]) == "" + [sep] + Join(rest, [sep]);
      } else {
        assert Split(s, sep) == [[s[0]] + rest[0]] + rest[1..];
        JoinGlue(s[0], rest[0], rest[1..], [sep]);
        assert [rest[0]] + rest[1..] == rest;
      }
    }
  }

  /** A character glued to the front of the first piece is the front of the join. */
  lemma JoinGlue(c: char, w: string, more: seq<string>, sep: string)
    ensures Join([[c] + w] + more, sep) == [c] + Join([w] + more, sep)
  {
    if |more| > 0 {
      assert ([[c] + w] + more)[1..] == more;
      assert ([w] + more)[1..] == more;
    }
  }

  lemma {:induction false} SplitNoSeparator(w: string, sep: char)
    requires sep !in w
    ensures Split(w, sep) == [w]
  {
    if |w| > 0 {
      SplitNoSeparator(w[1..], sep);
      assert w == [w[0]] + w[1..];
    }
  }

  lemma {:induction false} SplitAfterPiece(w: string, t: string, sep: char)
    requires sep !in w
    ensures Split(w + [sep] + t, sep) == [w] + Split(t, sep)
  {
    var s := w + [sep] + t;
    if |w| == 0 {
      assert s == [sep] + t && s[1..] == t;
    } else {
      var u := w[1..] + [sep] + t;
      assert s == [w[0]] + u;
      SplitAfterPiece(w[1..], t, sep);
      SplitCons(w[0], u, sep);
      assert [w[0]] + w[1..] == w;
    }
  }

  /** A leading character other than the separator joins the first piece. */
  lemma SplitCons(c: char, u: string, sep: char)
    requires c != sep
    ensures Split([c] + u, sep) == [[c] + Split(u, sep)[0]] + Split(u, sep)[1..]
  {
    assert ([c] + u)[1..] == u;
  }

  /** Joining pieces free of the separator and splitting again gives the pieces back. */
  lemma {:induction false} JoinSplit(parts: seq<string>, sep: char)
    requires |parts| > 0
    requires forall i :: 0 <= i < |parts| ==> sep !in parts[i]
    ensures Split(Join(parts, [sep]), sep) == parts
  {
    if |parts| == 1 {
      SplitNoSeparator(parts[0], sep);
    } else {
      JoinSplit(parts[1..], sep);
      SplitAfterPiece(parts[0], Join(parts[1..], [sep]), sep);
      assert parts == [parts[0]] + parts[1..];
    }
  }
}
