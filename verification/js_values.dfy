/** The few ECMAScript values and built-ins the Schedule C grid relies on. */
module JsValues {
  import opened Support

  /** A cell value as the grid stores it. A number is represented by its
      canonical decimal spelling (what `String(n)` gives), so that two
      numbers are `===` exactly when their spellings are equal. NaN is never
      stored: every conversion below turns it into something else first. */
  datatype Value = Undefined | Null | Text(s: string) | Num(spelling: string)

  /** ECMAScript `Number(v)`: `None` stands for NaN, `Some(d)` for the finite
      number whose canonical spelling is `d` (never "NaN", so a stored `Num`
      is falsy exactly when it is zero). Number parsing is not modelled: it is
      a parameter of every operation that converts. */
  type NumberConversion = Value -> Option<string>

  /** JavaScript truthiness of a stored value. */
  predicate Truthy(v: Value)
  {
    match v
    case Undefined => false
    case Null => false
    case Text(s) => s != ""
    case Num(d) => d != "0"
  }

  /** ECMAScript `String(v)`. */
  function JsString(v: Value): (s: string)
  {
    match v
    case Undefined => "undefined"
    case Null => "null"
    case Text(s) => s
    case Num(d) => d
  }

  /** `toUpperCase` on the ASCII letters; other characters are kept. */
  function UpperChar(c: char): (u: char)
    ensures 'a' <= c <= 'z' ==> u as int == c as int - 32
    ensures !('a' <= c <= 'z') ==> u == c
  {
    if 'a' <= c <= 'z' then (c as int - 32) as char else c
  }

  function Upper(s: string): (u: string)
    ensures |u| == |s|
    ensures forall i :: 0 <= i < |s| ==> u[i] == UpperChar(s[i])
  {
    seq(|s|, i requires 0 <= i < |s| => UpperChar(s[i]))
  }

  /** `String(a).toUpperCase() === String(b).toUpperCase()` */
  predicate SameIgnoringCase(a: string, b: string)
  {
    Upper(a) == Upper(b)
  }

  /** `s.indexOf(pat) >= 0` */
  predicate Contains(s: string, pat: string)
    decreases |s|
  {
    pat <= s || (|s| > 0 && Contains(s[1..], pat))
  }

  /** `s.replace(/pat/g, '')`: a single left-to-right pass that deletes each
      occurrence it meets and does not look again at what the deletion
      joins together. */
  function RemoveAll(s: string, pat: string): (r: string)
    requires |pat| > 0
    ensures |r| <= |s|
    decreases |s|
  {
    if s == [] then []
    else if pat <= s then RemoveAll(s[|pat|..], pat)
    else [s[0]] + RemoveAll(s[1..], pat)
  }

  /** Removing a pattern that does not occur changes nothing. */
  lemma {:induction false} RemoveAllAbsent(s: string, pat: string)
    requires |pat| > 0 && !Contains(s, pat)
    ensures RemoveAll(s, pat) == s
  {
    if s != [] {
      RemoveAllAbsent(s[1..], pat);
    }
  }

  /** For a one-character pattern, `Contains` is plain membership. */
  lemma {:induction false} ContainsChar(s: string, c: char)
    ensures Contains(s, [c]) <==> c in s
  {
    if s != [] {
      ContainsChar(s[1..], c);
      assert s == [s[0]] + s[1..];
    }
  }

  /** Stripping a single character leaves none of it behind, and keeps every
      other character. */
  lemma {:induction false} RemoveCharGone(s: string, c: char)
    ensures c !in RemoveAll(s, [c])
    ensures forall x :: x in s && x != c ==> x in RemoveAll(s, [c])
  {
    if s != [] {
      RemoveCharGone(s[1..], c);
      assert s == [s[0]] + s[1..];
    }
  }

  /** Stripping a single character twice is the same as stripping it once. */
  lemma RemoveCharIdempotent(s: string, c: char)
    ensures RemoveAll(RemoveAll(s, [c]), [c]) == RemoveAll(s, [c])
  {
    RemoveCharGone(s, c);
    ContainsChar(RemoveAll(s, [c]), c);
    RemoveAllAbsent(RemoveAll(s, [c]), [c]);
  }

  /** A string ending in the pattern contains it. */
  lemma {:induction false} ContainsEnd(a: string, pat: string)
    ensures Contains(a + pat, pat)
  {
    if a == [] {
      assert a + pat == pat;
    } else {
      assert (a + pat)[1..] == a[1..] + pat;
      ContainsEnd(a[1..], pat);
    }
  }

  /** A string shorter than the pattern cannot contain it. */
  lemma {:induction false} ShorterAbsent(s: string, pat: string)
    requires |s| < |pat|
    ensures !Contains(s, pat)
  {
    if s != [] {
      ShorterAbsent(s[1..], pat);
    }
  }

  /** A character that is not part of the pattern separates occurrences:
      nothing to its left can take part in a match, so searching and
      removing only see what stands to its right. */
  lemma {:induction false} Separated(b: string, c: char, y: string, pat: string)
    requires |pat| > 0 && c !in pat && !Contains(b, pat)
    ensures Contains(b + [c] + y, pat) <==> Contains(y, pat)
    ensures RemoveAll(b + [c] + y, pat) == b + [c] + RemoveAll(y, pat)
  {
    var s := b + [c] + y;
    if |pat| <= |b| {
      assert !(pat <= b);
      var i :| 0 <= i < |pat| && pat[i] != b[i];
      assert s[i] == b[i];
    } else {
      assert s[|b|] == c && pat[|b|] != c;
    }
    assert !(pat <= s);
    if b == [] {
      assert s[1..] == y;
    } else {
      assert s[1..] == b[1..] + [c] + y;
      Separated(b[1..], c, y, pat);
    }
  }

  /** Because the replacement is a single pass, removing a longer pattern can
      leave an occurrence behind: "err" + "error" + "or" becomes "error". */
  lemma RemoveAllIsSinglePass()
    ensures RemoveAll("errerroror", "error") == "error"
    ensures Contains(RemoveAll("errerroror", "error"), "error")
  {
    var pat := "error";
    assert RemoveAll("r", pat) == "r";
    assert RemoveAll("or", pat) == "or";
    assert RemoveAll("erroror", pat) == "or";
    assert RemoveAll("rerroror", pat) == "ror";
    assert RemoveAll("rrerroror", pat) == "rror";
    assert RemoveAll("errerroror", pat) == "error";
    assert pat <= "error";
  }

  function DigitChar(d: nat): (c: char)
    requires d < 10
  {
    "0123456789"[d]
  }

  /** The canonical decimal spelling of a natural number, `String(n)`. */
  function NatToString(n: nat): (s: string)
    ensures |s| > 0
    ensures forall i :: 0 <= i < |s| ==> '0' <= s[i] <= '9'
  {
    if n < 10 then [DigitChar(n)] else NatToString(n / 10) + [DigitChar(n % 10)]
  }
}
