/**
 * The behaviour of the Rust string operations that `parse_tilemap_layer`
 * (src/assets.rs) relies on: `str::split_once`, `str::split(',')`,
 * `str::trim` and `str::parse` into an unsigned integer type.
 */
module Text {
  import opened Shared

  // ---------------------------------------------------------------------------
  // split_once
  // ---------------------------------------------------------------------------

  /** `pat` occurs in `s` starting at index `j`. */
  predicate OccursAt(s: string, pat: string, j: nat)
  {
    j + |pat| <= |s| && s[j..j + |pat|] == pat
  }

  /** The first index at or after `from` where `pat` occurs in `s`. */
  function FindFrom(s: string, pat: string, from: nat): (r: Option<nat>)
    decreases |s| - from
    ensures r.Some? ==> from <= r.value && OccursAt(s, pat, r.value)
    ensures r.Some? ==> forall j :: from <= j < r.value ==> !OccursAt(s, pat, j)
    ensures r.None? ==> forall j :: from <= j ==> !OccursAt(s, pat, j)
  {
    if from + |pat| > |s| then None
    else if s[from..from + |pat|] == pat then Some(from)
    else FindFrom(s, pat, from + 1)
  }

  /**
   * `s.split_once(pat)`: the text before and after the FIRST occurrence of
   * `pat`, or None when `pat` does not occur.
   */
  function SplitOnce(s: string, pat: string): (r: Option<(string, string)>)
    ensures r.None? <==> forall j :: !OccursAt(s, pat, j)
    ensures r.Some? ==> r.value.0 + pat + r.value.1 == s
    ensures r.Some? ==> forall j: nat :: j < |r.value.0| ==> !OccursAt(s, pat, j)
  {
    match FindFrom(s, pat, 0)
    case None => None
    case Some(i) =>
      assert s == s[..i] + s[i..i + |pat|] + s[i + |pat|..];
      Some((s[..i], s[i + |pat|..]))
  }

  /** Where `pat` first occurs at the end of `a`, `split_once` cuts `a + pat + b` into `a` and `b`. */
  lemma SplitOnceAt(s: string, pat: string, a: string, b: string)
    requires s == a + pat + b
    requires forall j: nat :: j < |a| ==> !OccursAt(s, pat, j)
    ensures SplitOnce(s, pat) == Some((a, b))
  {
    assert OccursAt(s, pat, |a|) by {
      assert s[|a|..|a| + |pat|] == pat;
    }
    var r := SplitOnce(s, pat);
    var x, y := r.value.0, r.value.1;
    assert OccursAt(s, pat, |x|) by {
      assert s[|x|..|x| + |pat|] == pat;
    }
    assert |x| == |a|;
    assert x == s[..|a|] == a;
    assert y == s[|a| + |pat|..] == b;
  }

  // ---------------------------------------------------------------------------
  // split on a separator character
  // ---------------------------------------------------------------------------

  /**
   * `s.split(sep)` collected: the pieces between separators, in order. Like
   * the Rust iterator it yields one (empty) piece for the empty string and an
   * empty piece after a trailing separator.
   */
  function Split(s: string, sep: char): (r: seq<string>)
    ensures |r| >= 1
  {
    if |s| == 0 then [[]]
    else
      var rest := Split(s[1..], sep);
      if s[0] == sep then [[]] + rest
      else [[s[0]] + rest[0]] + rest[1..]
  }

  /** The pieces glued back together with `sep` between them. */
  function Join(fs: seq<string>, sep: char): string
  {
    if |fs| == 0 then []
    else if |fs| == 1 then fs[0]
    else fs[0] + [sep] + Join(fs[1..], sep)
  }

  /** Number of occurrences of `c` in `s`. */
  function Count(s: string, c: char): nat
  {
    if |s| == 0 then 0 else (if s[0] == c then 1 else 0) + Count(s[1..], c)
  }

  /** Splitting yields one more piece than there are separators, none containing one. */
  lemma {:induction false} SplitShape(s: string, sep: char)
    ensures |Split(s, sep)| == Count(s, sep) + 1
    ensures forall i :: 0 <= i < |Split(s, sep)| ==> sep !in Split(s, sep)[i]
  {
    if |s| > 0 {
      SplitShape(s[1..], sep);
      var rest := Split(s[1..], sep);
      if s[0] != sep {
        assert sep !in rest[0];
        assert forall i :: 1 <= i < |rest| ==> sep !in rest[i];
      }
    }
  }

  /** Joining the pieces gives back the original text. */
  lemma {:induction false} JoinSplit(s: string, sep: char)
    ensures Join(Split(s, sep), sep) == s
  {
    if |s| > 0 {
      JoinSplit(s[1..], sep);
      var rest := Split(s[1..], sep);
      if s[0] == sep {
        assert Split(s, sep) == [[]] + rest;
        assert s == [sep] + s[1..];
      } else {
        var r := Split(s, sep);
        assert r[1..] == rest[1..];
        if |rest| == 1 {
          assert s == [s[0]] + rest[0];
        } else {
          assert Join(rest, sep) == rest[0] + [sep] + Join(rest[1..], sep);
          assert s == [s[0]] + s[1..];
        }
      }
    }
  }

  /** A separator-free prefix joins the first piece of what follows it. */
  lemma {:induction false} SplitSeparatorFreePrefix(a: string, t: string, sep: char)
    requires sep !in a
    ensures Split(a + t, sep) == [a + Split(t, sep)[0]] + Split(t, sep)[1..]
  {
    if |a| > 0 {
      SplitSeparatorFreePrefix(a[1..], t, sep);
      assert (a + t)[1..] == a[1..] + t;
      assert (a + t)[0] == a[0];
      assert [a[0]] + (a[1..] + Split(t, sep)[0]) == a + Split(t, sep)[0];
    } else {
      assert a + t == t;
      var r := Split(t, sep);
      assert r == [r[0]] + r[1..];
      assert a + r[0] == r[0];
    }
  }

  /** Splitting separator-free pieces joined by the separator gives them back. */
  lemma {:induction false} SplitJoin(fs: seq<string>, sep: char)
    requires |fs| >= 1
    requires forall i :: 0 <= i < |fs| ==> sep !in fs[i]
    ensures Split(Join(fs, sep), sep) == fs
  {
    if |fs| == 1 {
      SplitSeparatorFreePrefix(fs[0], [], sep);
      assert fs[0] + [] == fs[0];
    } else {
      SplitJoin(fs[1..], sep);
      var rest := Join(fs[1..], sep);
      SplitSeparatorFreePrefix(fs[0], [sep] + rest, sep);
      assert Split([sep] + rest, sep) == [[]] + Split(rest, sep) by {
        assert ([sep] + rest)[1..] == rest;
      }
      assert fs[0] + [sep] + rest == fs[0] + ([sep] + rest);
      assert Join(fs, sep) == fs[0] + ([sep] + rest);
      var r := Split(rest, sep);
      assert Split([sep] + rest, sep)[0] == [] && Split([sep] + rest, sep)[1..] == r;
      assert fs[0] + [] == fs[0];
      assert fs == [fs[0]] + fs[1..];
    }
  }

  // ---------------------------------------------------------------------------
  // trim
  // ---------------------------------------------------------------------------

  /** The Unicode White_Space property, which `str::trim` strips. */
  predicate IsWhitespace(c: char)
  {
    ('\t' <= c <= '\r') || c == ' ' || c == '\U{85}' || c == '\U{A0}'
    || c == '\U{1680}' || ('\U{2000}' <= c <= '\U{200A}') || c == '\U{2028}'
    || c == '\U{2029}' || c == '\U{202F}' || c == '\U{205F}' || c == '\U{3000}'
  }

  predicate AllWhitespace(s: string)
  {
    forall i :: 0 <= i < |s| ==> IsWhitespace(s[i])
  }

  function TrimStart(s: string): string
  {
    if |s| > 0 && IsWhitespace(s[0]) then TrimStart(s[1..]) else s
  }

  function TrimEnd(s: string): string
  {
    if |s| > 0 && IsWhitespace(s[|s| - 1]) then TrimEnd(s[..|s| - 1]) else s
  }

  /** `s.trim()`: leading and trailing white space removed. */
  function Trim(s: string): string
  {
    TrimEnd(TrimStart(s))
  }

  lemma {:induction false} TrimStartSkipsWhitespace(pre: string, s: string)
    requires AllWhitespace(pre)
    ensures TrimStart(pre + s) == TrimStart(s)
  {
    if |pre| > 0 {
      assert (pre + s)[1..] == pre[1..] + s;
      TrimStartSkipsWhitespace(pre[1..], s);
    } else {
      assert pre + s == s;
    }
  }

  lemma {:induction false} TrimEndSkipsWhitespace(s: string, post: string)
    requires AllWhitespace(post)
    ensures TrimEnd(s + post) == TrimEnd(s)
  {
    if |post| > 0 {
      assert (s + post)[..|s + post| - 1] == s + post[..|post| - 1];
      TrimEndSkipsWhitespace(s, post[..|post| - 1]);
    } else {
      assert s + post == s;
    }
  }

  /** Trimming the front of text that holds a non-blank character leaves its tail alone. */
  lemma {:induction false} TrimStartKeepsTail(s: string, post: string)
    requires !AllWhitespace(s)
    ensures TrimStart(s + post) == TrimStart(s) + post
  {
    assert |s| > 0;
    assert (s + post)[0] == s[0];
    if IsWhitespace(s[0]) {
      assert (s + post)[1..] == s[1..] + post;
      assert !AllWhitespace(s[1..]) by {
        var i :| 0 <= i < |s| && !IsWhitespace(s[i]);
        assert i > 0 && s[1..][i - 1] == s[i];
      }
      TrimStartKeepsTail(s[1..], post);
    }
  }

  lemma {:induction false} TrimStartOfBlank(s: string)
    requires AllWhitespace(s)
    ensures TrimStart(s) == []
  {
    TrimStartSkipsWhitespace(s, []);
    assert s + [] == s;
  }

  /**
   * White space around a piece, line breaks included, does not change what
   * `trim` leaves of it.
   */
  lemma TrimIgnoresPadding(pre: string, s: string, post: string)
    requires AllWhitespace(pre) && AllWhitespace(post)
    ensures Trim(pre + s + post) == Trim(s)
  {
    assert pre + s + post == pre + (s + post);
    TrimStartSkipsWhitespace(pre, s + post);
    if AllWhitespace(s) {
      TrimStartSkipsWhitespace(s, post);
      TrimStartOfBlank(post);
      TrimStartOfBlank(s);
    } else {
      TrimStartKeepsTail(s, post);
      TrimEndSkipsWhitespace(TrimStart(s), post);
    }
  }

  // ---------------------------------------------------------------------------
  // parse into an unsigned integer type
  // ---------------------------------------------------------------------------

  predicate IsDigit(c: char) { '0' <= c <= '9' }

  predicate AllDigits(s: string)
  {
    forall i :: 0 <= i < |s| ==> IsDigit(s[i])
  }

  /** The decimal value of a digit string, most significant digit first. */
  function DigitsValue(s: string): nat
    requires AllDigits(s)
  {
    if |s| == 0 then 0
    else DigitsValue(s[..|s| - 1]) * 10 + (s[|s| - 1] as int - '0' as int)
  }

  /** The digits of a string accepted by the unsigned parser: an optional leading `+` removed. */
  function UnsignedDigits(s: string): string
  {
    if |s| > 0 && s[0] == '+' then s[1..] else s
  }

  /**
   * `s.parse::<uN>()` where `limit` is `uN::MAX + 1`: one or more decimal
   * digits after an optional `+`, with a value below `limit`. Anything else
   * (the empty string, a lone sign, a `-`, any other character, an overflow)
   * is an error.
   */
  function ParseUnsigned(s: string, limit: nat): (r: Option<nat>)
    ensures r.Some? ==> r.value < limit
    ensures r.Some? ==> |UnsignedDigits(s)| > 0 && AllDigits(UnsignedDigits(s))
  {
    var ds := UnsignedDigits(s);
    if |ds| > 0 && AllDigits(ds) && DigitsValue(ds) < limit then Some(DigitsValue(ds))
    else None
  }

  /** The decimal notation of `n`, without leading zeros. */
  function Decimal(n: nat): (r: string)
    ensures |r| > 0 && AllDigits(r)
  {
    var last := ['0' + ((n % 10) as char)];
    if n < 10 then last else Decimal(n / 10) + last
  }

  lemma {:induction false} DecimalValue(n: nat)
    ensures DigitsValue(Decimal(n)) == n
  {
    var d := Decimal(n);
    assert d[..|d| - 1] == (if n < 10 then [] else Decimal(n / 10));
    if n >= 10 {
      DecimalValue(n / 10);
    }
  }

  /** Parsing the decimal notation of a value below the limit gives that value back. */
  lemma ParseDecimal(n: nat, limit: nat)
    requires n < limit
    ensures ParseUnsigned(Decimal(n), limit) == Some(n)
  {
    DecimalValue(n);
  }
}
