/** Zero-terminated text, as the routines of lib/string.c read it. */
module CStrings {

  const NUL: char := '\0'

  /** The zero-padded text at position `i`. */
  function At(s: string, i: nat): char {
    if i < |s| then s[i] else NUL
  }

  ghost predicate CString(s: string) {
    forall i :: 0 <= i < |s| ==> s[i] != NUL
  }

  /** The C string at the start of a buffer. */
  function Text(b: string): (t: string)
    ensures |t| <= |b| && t == b[..|t|] && CString(t) && (|t| < |b| ==> b[|t|] == NUL)
  {
    if b == [] || b[0] == NUL then [] else [b[0]] + Text(b[1..])
  }

  /** A buffer that holds a name and nothing but zeros behind it. */
  ghost predicate Holds(b: string, name: string) {
    |name| <= |b| && CString(name) && b[..|name|] == name
    && forall i :: |name| <= i < |b| ==> b[i] == NUL
  }

  lemma {:induction false} HeldText(b: string, name: string)
    requires Holds(b, name)
    ensures Text(b) == name
  {
    if b != [] && name != [] {
      assert b[0] == name[0] by { assert b[..|name|][0] == name[0]; }
      assert b[1..][..|name| - 1] == name[1..] by { assert b[..|name|][1..] == name[1..]; }
      HeldText(b[1..], name[1..]);
      assert name == [name[0]] + name[1..];
    }
  }

  // ---- strcmp ----

  /** The value of `strcmp`: the difference at the first position where the texts differ. */
  ghost function Order(a: string, b: string): int {
    if a != [] && b != [] && a[0] == b[0] && a[0] != NUL then Order(a[1..], b[1..])
    else At(a, 0) as int - At(b, 0) as int
  }

  method StrCmp(a: string, b: string) returns (r: int)
    ensures r == Order(a, b)
  {
    var i := 0;
    while At(a, i) != NUL && At(b, i) != NUL && At(a, i) == At(b, i)
      invariant i <= |a| && i <= |b| && Order(a, b) == Order(a[i..], b[i..])
      decreases |a| - i
    {
      i := i + 1;
    }
    r := At(a, i) as int - At(b, i) as int;
  }

  /** `strcmp` answers zero exactly for equal texts. */
  lemma {:induction false} OrderZero(a: string, b: string)
    ensures Order(a, b) == 0 <==> Text(a) == Text(b)
  {
    if a != [] && b != [] && a[0] == b[0] && a[0] != NUL {
      OrderZero(a[1..], b[1..]);
      assert Text(a)[1..] == Text(a[1..]) && Text(b)[1..] == Text(b[1..]);
    } else if a != [] && a[0] != NUL {
      assert Text(a)[0] == a[0];
      assert b != [] && b[0] != NUL ==> Text(b)[0] == b[0];
    } else {
      assert b != [] && b[0] != NUL ==> Text(b)[0] == b[0];
    }
  }

  // ---- strncmp ----

  /** `strncmp`: at most `max` equal characters are skipped, and the next pair decides. */
  function StrNCmp(a: string, b: string, max: nat): int {
    if a != [] && b != [] && a[0] == b[0] && a[0] != NUL && max > 0 then StrNCmp(a[1..], b[1..], max - 1)
    else At(a, 0) as int - At(b, 0) as int
  }

  /** Two fields of `max` characters compare equal exactly when their texts are equal and, where the
      text fills the field, the characters behind the fields are equal too. */
  lemma {:induction false} FieldsEqual(a: string, pa: string, b: string, pb: string)
    requires |a| == |b|
    ensures StrNCmp(a + pa, b + pb, |a|) == 0 <==>
            Text(a) == Text(b) && (|Text(a)| < |a| || At(pa, 0) == At(pb, 0))
  {
    if a == [] {
      assert a + pa == pa && b + pb == pb;
    } else if a[0] == b[0] && a[0] != NUL {
      assert (a + pa)[1..] == a[1..] + pa && (b + pb)[1..] == b[1..] + pb;
      FieldsEqual(a[1..], pa, b[1..], pb);
      assert Text(a)[1..] == Text(a[1..]) && Text(b)[1..] == Text(b[1..]);
    } else {
      assert a[0] != NUL ==> Text(a)[0] == a[0];
      assert b[0] != NUL ==> Text(b)[0] == b[0];
    }
  }

  // ---- strncpy into a zeroed field ----

  ghost function Clipped(c: string, max: nat): nat {
    if |c| < max then |c| else max
  }

  /** The field after `strncpy` of a text into `max` zeroed characters. */
  function Field(c: string, max: nat): (b: string)
    ensures |b| == max && b[..Clipped(c, max)] == c[..Clipped(c, max)]
    ensures forall i :: Clipped(c, max) <= i < max ==> b[i] == NUL
  {
    if max == 0 then "" else if c == [] then [NUL] + Field(c, max - 1) else [c[0]] + Field(c[1..], max - 1)
  }

  lemma {:induction false} FieldText(c: string, max: nat)
    requires CString(c)
    ensures Text(Field(c, max)) == c[..Clipped(c, max)]
  {
    HeldText(Field(c, max), c[..Clipped(c, max)]);
  }
}
