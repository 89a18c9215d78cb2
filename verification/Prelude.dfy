/** Shared vocabulary: optional values, results, bytes, and the few facts about text
    that both sides of the C boundary rely on. */
module Prelude {

  datatype Option<+T> = None | Some(value: T)

  datatype Result<+T, +E> = Ok(value: T) | Err(error: E)

  newtype byte = x: int | 0 <= x < 256

  /** A Rust string becomes a CString only when no NUL occurs inside it. */
  predicate NulFree(s: string) {
    '\0' !in s
  }

  /** What a C reader sees of a buffer: everything before the first NUL. */
  function UntilNul(s: string): (r: string)
    ensures NulFree(r) && r <= s
    ensures NulFree(s) <==> r == s
  {
    if s == [] || s[0] == '\0' then [] else [s[0]] + UntilNul(s[1..])
  }

  /** UTF-8 checking as the two Rust conversions use it: `valid` decides `to_str`,
      `lossy` is `to_string_lossy`. */
  datatype Utf8 = Utf8(valid: string -> bool, lossy: string -> string) {
    /** Lossy decoding changes nothing in text that was valid. */
    ghost predicate Lawful() {
      forall s :: valid(s) ==> lossy(s) == s
    }
  }

  /** The elements of `xs` that satisfy `keep`, in order. */
  function Filter<T>(keep: T -> bool, xs: seq<T>): seq<T> {
    if xs == [] then []
    else (if keep(xs[0]) then [xs[0]] else []) + Filter(keep, xs[1..])
  }

  lemma {:induction false} FilterSnoc<T>(keep: T -> bool, xs: seq<T>, x: T)
    ensures Filter(keep, xs + [x]) == Filter(keep, xs) + (if keep(x) then [x] else [])
  {
    if xs == [] {
      assert xs + [x] == [x];
    } else {
      assert (xs + [x])[1..] == xs[1..] + [x];
      FilterSnoc(keep, xs[1..], x);
    }
  }

  /** Filtering loses nothing exactly when every element qualifies. */
  lemma {:induction false} FilterIsIdentity<T>(keep: T -> bool, xs: seq<T>)
    ensures |Filter(keep, xs)| <= |xs|
    ensures Filter(keep, xs) == xs <==> forall x :: x in xs ==> keep(x)
  {
    if xs != [] {
      FilterIsIdentity(keep, xs[1..]);
      if Filter(keep, xs) == xs {
        assert keep(xs[0]);
        assert Filter(keep, xs)[1..] == Filter(keep, xs[1..]);
      }
    }
  }
}
