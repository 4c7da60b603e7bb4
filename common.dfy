/**
 * Library behaviour the event manager relies on: an optional value, an
 * opaque calendar date, Java's 32-bit `int`, and the two `String`
 * operations whose definition is fixed by the JDK (`trim`, `contains`).
 * Date parsing and formatting, lower-casing and the clock are not defined
 * here: callers receive them as function-typed parameters.
 */
module Common {

  datatype Option<+T> = None | Some(value: T)

  /** A `java.time.LocalDate`; only equality is observable in this model. */
  type Date(==)

  const INT_MIN: int := -0x8000_0000
  const INT_MAX: int := 0x7fff_ffff
  const TWO_TO_32: int := 0x1_0000_0000

  /** The values of a Java `int`. */
  type int32 = x: int | INT_MIN <= x <= INT_MAX

  predicate InInt32(x: int) {
    INT_MIN <= x <= INT_MAX
  }

  /** Java `int` arithmetic: the mathematical result reduced into 32 bits. */
  function Wrap32(x: int): (r: int32)
    ensures InInt32(x) ==> r == x
    ensures (x - r) % TWO_TO_32 == 0
  {
    (x - INT_MIN) % TWO_TO_32 + INT_MIN
  }

  /**
   * `String.trim`: drop every leading and trailing char whose code is at
   * most U+0020. The result is empty exactly when the argument is entirely
   * blank (this is what "name is required" tests), and otherwise it neither
   * starts nor ends with a blank.
   */
  function Trim(s: string): (r: string)
    ensures r == [] <==> IsBlank(s)
    ensures r != [] ==> r[0] > ' ' && r[|r| - 1] > ' '
  {
    var t := TrimStart(s);
    TrimStartFacts(s);
    TrimEndFacts(t);
    assert TrimEnd(t) != [] ==> TrimEnd(t)[0] == t[0];
    TrimEnd(t)
  }

  function TrimStart(s: string): string {
    if |s| > 0 && s[0] <= ' ' then TrimStart(s[1..]) else s
  }

  function TrimEnd(s: string): string {
    if |s| > 0 && s[|s| - 1] <= ' ' then TrimEnd(s[..|s| - 1]) else s
  }

  predicate IsBlank(s: string) {
    forall i :: 0 <= i < |s| ==> s[i] <= ' '
  }

  /**
   * Dropping leading blanks leaves a suffix that is empty only for a blank
   * string; what was dropped is all blanks.
   */
  lemma {:induction false} TrimStartFacts(s: string)
    ensures |TrimStart(s)| <= |s| && TrimStart(s) == s[|s| - |TrimStart(s)|..]
    ensures IsBlank(s[..|s| - |TrimStart(s)|])
    ensures TrimStart(s) == [] <==> IsBlank(s)
    ensures TrimStart(s) != [] ==> TrimStart(s)[0] > ' '
    decreases |s|
  {
    if |s| > 0 && s[0] <= ' ' {
      TrimStartFacts(s[1..]);
      assert s[1..][|s| - 1 - |TrimStart(s)|..] == s[|s| - |TrimStart(s)|..];
      var dropped := s[..|s| - |TrimStart(s)|];
      forall k | 0 <= k < |dropped| ensures dropped[k] <= ' ' {
        if k > 0 { assert dropped[k] == s[1..][..|s| - 1 - |TrimStart(s)|][k - 1]; }
      }
      assert IsBlank(s[1..]) ==> IsBlank(s) by {
        if IsBlank(s[1..]) {
          forall k | 0 <= k < |s| ensures s[k] <= ' ' {
            if k > 0 { assert s[k] == s[1..][k - 1]; }
          }
        }
      }
    } else {
      assert TrimStart(s) == s[0..];
      assert |s| > 0 ==> !IsBlank(s);
    }
  }

  /**
   * Dropping trailing blanks leaves a prefix that is empty only for a blank
   * string; what was dropped is all blanks.
   */
  lemma {:induction false} TrimEndFacts(s: string)
    ensures |TrimEnd(s)| <= |s| && TrimEnd(s) == s[..|TrimEnd(s)|]
    ensures IsBlank(s[|TrimEnd(s)|..])
    ensures TrimEnd(s) == [] <==> IsBlank(s)
    ensures TrimEnd(s) != [] ==> TrimEnd(s)[|TrimEnd(s)| - 1] > ' '
    decreases |s|
  {
    if |s| > 0 && s[|s| - 1] <= ' ' {
      var p := s[..|s| - 1];
      TrimEndFacts(p);
      assert p[..|TrimEnd(s)|] == s[..|TrimEnd(s)|];
      var dropped := s[|TrimEnd(s)|..];
      forall k | 0 <= k < |dropped| ensures dropped[k] <= ' ' {
        if k < |dropped| - 1 { assert dropped[k] == p[|TrimEnd(s)|..][k]; }
      }
      assert IsBlank(p) ==> IsBlank(s) by {
        if IsBlank(p) {
          forall k | 0 <= k < |s| ensures s[k] <= ' ' {
            if k < |s| - 1 { assert s[k] == p[k]; }
          }
        }
      }
    } else {
      assert TrimEnd(s) == s[..|s|];
      assert |s| > 0 ==> !IsBlank(s);
    }
  }

  /**
   * `trim` returns a contiguous piece of its argument, and everything it
   * cuts off at either end is blank: the stored text is the typed text with
   * exactly its leading and trailing blanks removed.
   */
  lemma TrimIsSlice(s: string)
    ensures exists i, j :: 0 <= i <= j <= |s| && Trim(s) == s[i..j] && IsBlank(s[..i]) && IsBlank(s[j..])
  {
    var t := TrimStart(s);
    TrimStartFacts(s);
    TrimEndFacts(t);
    var i := |s| - |t|;
    var j := |TrimEnd(t)|;
    assert Trim(s) == s[i..i + j];
    assert t[j..] == s[i + j..];
  }

  lemma {:induction false} TrimStartOfUnblankStart(s: string)
    requires s == [] || s[0] > ' '
    ensures TrimStart(s) == s
  {
  }

  lemma {:induction false} TrimEndOfUnblankEnd(s: string)
    requires s == [] || s[|s| - 1] > ' '
    ensures TrimEnd(s) == s
  {
  }

  /** Trimming twice is trimming once, so re-editing a stored value keeps it. */
  lemma TrimIdempotent(s: string)
    ensures Trim(Trim(s)) == Trim(s)
  {
    var t := Trim(s);
    if t != [] {
      TrimStartOfUnblankStart(t);
      TrimEndOfUnblankEnd(t);
    }
  }

  /** `String.contains`: `t` occurs in `s` as a contiguous piece. */
  predicate Contains(s: string, t: string): (r: bool)
    decreases |s|
    ensures t == [] ==> r
    ensures r ==> |t| <= |s|
    ensures |t| == |s| ==> (r <==> s == t)
  {
    |t| <= |s| && (s[..|t|] == t || Contains(s[1..], t))
  }

  predicate OccursAt(s: string, t: string, i: int) {
    0 <= i <= |s| - |t| && s[i..i + |t|] == t
  }

  /** The recursive `Contains` agrees with "occurs at some offset". */
  lemma {:induction false} ContainsAt(s: string, t: string)
    ensures Contains(s, t) <==> exists i :: OccursAt(s, t, i)
    decreases |s|
  {
    if |t| <= |s| && s[..|t|] != t && |s| > 0 {
      ContainsAt(s[1..], t);
      if exists i :: OccursAt(s, t, i) {
        var i :| OccursAt(s, t, i);
        assert i > 0;
        assert OccursAt(s[1..], t, i - 1);
      }
      if Contains(s[1..], t) {
        var i :| OccursAt(s[1..], t, i);
        assert OccursAt(s, t, i + 1);
      }
    } else if |t| <= |s| && s[..|t|] == t {
      assert OccursAt(s, t, 0);
    }
  }
}
