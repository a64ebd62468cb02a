/** Strings handed over as pointers to their first character. */
module CStrings {

  /** The part of a sequence before the first `end`. */
  function Before<T(==)>(s: seq<T>, end: T): (t: seq<T>)
    ensures t <= s && end !in t
    ensures |t| < |s| ==> s[|t|] == end
  {
    if s == [] || s[0] == end then [] else [s[0]] + Before(s[1..], end)
  }

  lemma {:induction false} BeforeWhole<T>(s: seq<T>, end: T)
    ensures Before(s, end) == s <==> end !in s
  {
    if end !in s && s != [] {
      BeforeWhole(s[1..], end);
      assert s == [s[0]] + s[1..];
    }
  }

  /** A C string ends at its first NUL. */
  function CString(s: string): (t: string)
    ensures t <= s && '\0' !in t
    ensures |t| < |s| ==> s[|t|] == '\0'
  {
    Before(s, '\0')
  }

  lemma CStringWhole(s: string)
    ensures CString(s) == s <==> '\0' !in s
  {
    BeforeWhole(s, '\0');
  }

  lemma {:induction false} CStringAppend(s: string, t: string)
    requires '\0' !in s
    ensures CString(s + t) == s + CString(t)
  {
    if s == "" {
      assert s + t == t;
    } else {
      assert (s + t)[1..] == s[1..] + t;
      CStringAppend(s[1..], t);
      assert s == [s[0]] + s[1..];
    }
  }
}
