/**
 * The part of MongoDB's collection semantics the UniHub handlers rely on,
 * stated over a collection (or an embedded array) held as a sequence of
 * documents in insertion order, and a filter held as a predicate.
 *
 * - findOne returns the first matching document;
 * - updateOne and deleteOne touch only the first matching document;
 * - insertOne and $push append;
 * - $pull removes every matching array element.
 */
module Mongo {

  datatype Option<+T> = None | Some(value: T) {
    /** `x || default` for a field that may be absent. */
    function GetOr(default: T): T {
      match this
      case Some(v) => v
      case None => default
    }
  }

  /** Position of the first document matching `p`: the one findOne returns
      and updateOne / deleteOne act on. */
  function FirstMatch<T>(s: seq<T>, p: T -> bool): (r: Option<nat>)
    ensures r.None? <==> forall j :: 0 <= j < |s| ==> !p(s[j])
    ensures r.Some? ==> r.value < |s| && p(s[r.value])
    ensures r.Some? ==> forall j :: 0 <= j < r.value ==> !p(s[j])
  {
    if |s| == 0 then None
    else if p(s[0]) then Some(0)
    else match FirstMatch(s[1..], p)
      case None => None
      case Some(k) => Some(k + 1)
  }

  /** findOne: the first matching document, if any. */
  function FindOne<T>(s: seq<T>, p: T -> bool): (r: Option<T>)
    ensures r.Some? <==> exists j :: 0 <= j < |s| && p(s[j])
    ensures r.Some? ==> r.value in s && p(r.value)
    ensures r.Some? ==> exists i :: 0 <= i < |s| && r.value == s[i] && p(s[i]) && forall j :: 0 <= j < i ==> !p(s[j])
  {
    match FirstMatch(s, p)
    case None => None
    case Some(i) => Some(s[i])
  }

  /** updateOne: the first matching document replaced by `f` of it; every
      other document, and every document when none matches, left as it was.
      (An assignment at the index `findIndex` returns acts the same way on an
      in-memory array.) */
  function UpdateOne<T>(s: seq<T>, p: T -> bool, f: T -> T): (r: seq<T>)
    ensures |r| == |s|
    ensures forall j :: 0 <= j < |s| && !p(s[j]) ==> r[j] == s[j]
    ensures FirstMatch(s, p).None? ==> r == s
    ensures FirstMatch(s, p).Some? ==>
      var i := FirstMatch(s, p).value;
      r[i] == f(s[i]) && forall j :: 0 <= j < |s| && j != i ==> r[j] == s[j]
  {
    match FirstMatch(s, p)
    case None => s
    case Some(i) => s[i := f(s[i])]
  }

  /** Number of documents matching `p`. */
  function Count<T>(s: seq<T>, p: T -> bool): (n: nat)
    ensures n <= |s|
    ensures n == 0 <==> forall j :: 0 <= j < |s| ==> !p(s[j])
  {
    if |s| == 0 then 0 else (if p(s[0]) then 1 else 0) + Count(s[1..], p)
  }

  /** No two distinct positions both match `p`. */
  ghost predicate AtMostOne<T>(s: seq<T>, p: T -> bool) {
    forall i, j :: 0 <= i < |s| && 0 <= j < |s| && p(s[i]) && p(s[j]) ==> i == j
  }

  /** The array `$pull` leaves: every element matching `p` removed, the others kept in order. */
  function Without<T>(s: seq<T>, p: T -> bool): (r: seq<T>)
    ensures |r| == |s| - Count(s, p)
    ensures forall j :: 0 <= j < |r| ==> !p(r[j])
  {
    if |s| == 0 then [] else (if p(s[0]) then [] else [s[0]]) + Without(s[1..], p)
  }

  /** What $pull keeps is exactly what did not match. */
  lemma {:induction false} WithoutMembers<T>(s: seq<T>, p: T -> bool)
    ensures forall x :: x in Without(s, p) <==> x in s && !p(x)
  {
    if |s| > 0 {
      WithoutMembers(s[1..], p);
      assert s == [s[0]] + s[1..];
    }
  }

  /** deleteOne: the collection with its first matching document removed. */
  function DeleteOne<T>(s: seq<T>, p: T -> bool): (r: seq<T>)
    ensures Without(r, p) == Without(s, p)
    ensures Count(r, p) == if Count(s, p) == 0 then 0 else Count(s, p) - 1
    ensures Count(s, p) == 0 ==> r == s
  {
    match FirstMatch(s, p)
    case None => s
    case Some(i) => DeleteAt(s, p, i); s[..i] + s[i + 1..]
  }

  /** Removing one matching element leaves the non-matching ones as they were
      and one fewer match. */
  lemma DeleteAt<T>(s: seq<T>, p: T -> bool, i: nat)
    requires i < |s| && p(s[i])
    ensures Without(s[..i] + s[i + 1..], p) == Without(s, p)
    ensures Count(s[..i] + s[i + 1..], p) == Count(s, p) - 1
  {
    var a, b, c := s[..i], s[i + 1..], s[i..];
    assert s == a + c;
    assert c[0] == s[i] && c[1..] == b;
    WithoutAt(a, b, c, p);
    CountAt(a, b, c, p);
  }

  lemma WithoutAt<T>(a: seq<T>, b: seq<T>, c: seq<T>, p: T -> bool)
    requires |c| > 0 && p(c[0]) && c[1..] == b
    ensures Without(a + b, p) == Without(a + c, p)
  {
    assert Without(c, p) == Without(b, p);
    WithoutAppend(a, c, p);
    WithoutAppend(a, b, p);
  }

  lemma CountAt<T>(a: seq<T>, b: seq<T>, c: seq<T>, p: T -> bool)
    requires |c| > 0 && p(c[0]) && c[1..] == b
    ensures Count(a + b, p) == Count(a + c, p) - 1
  {
    assert Count(c, p) == 1 + Count(b, p);
    CountAppend(a, c, p);
    CountAppend(a, b, p);
  }

  /** $pull works element by element: it distributes over concatenation,
      which is to say it keeps the order of what it does not remove. */
  lemma {:induction false} WithoutAppend<T>(a: seq<T>, b: seq<T>, p: T -> bool)
    ensures Without(a + b, p) == Without(a, p) + Without(b, p)
  {
    if |a| == 0 {
      assert a + b == b;
    } else {
      assert (a + b)[1..] == a[1..] + b;
      WithoutAppend(a[1..], b, p);
    }
  }

  lemma {:induction false} CountAppend<T>(a: seq<T>, b: seq<T>, p: T -> bool)
    ensures Count(a + b, p) == Count(a, p) + Count(b, p)
  {
    if |a| == 0 {
      assert a + b == b;
    } else {
      assert (a + b)[1..] == a[1..] + b;
      CountAppend(a[1..], b, p);
    }
  }

  /** A filter that matches at most one document counts at most one, and conversely. */
  lemma {:induction false} AtMostOneIffCount<T>(s: seq<T>, p: T -> bool)
    ensures AtMostOne(s, p) <==> Count(s, p) <= 1
  {
    if |s| > 0 {
      AtMostOneIffCount(s[1..], p);
      if p(s[0]) {
        if AtMostOne(s, p) {
          forall j | 0 <= j < |s[1..]| ensures !p(s[1..][j]) {
            assert s[1..][j] == s[j + 1];
          }
        }
        if Count(s, p) <= 1 {
          forall k | 0 < k < |s| ensures !p(s[k]) {
            assert s[k] == s[1..][k - 1];
          }
        }
      } else {
        if AtMostOne(s, p) {
          forall i, j | 0 <= i < |s[1..]| && 0 <= j < |s[1..]| && p(s[1..][i]) && p(s[1..][j])
            ensures i == j
          {
            assert s[1..][i] == s[i + 1] && s[1..][j] == s[j + 1];
          }
        }
        if AtMostOne(s[1..], p) {
          forall i, j | 0 <= i < |s| && 0 <= j < |s| && p(s[i]) && p(s[j]) ensures i == j {
            assert i != 0 && j != 0;
            assert s[1..][i - 1] == s[i] && s[1..][j - 1] == s[j];
          }
        }
      }
    }
  }

  /** $pull with nothing to pull leaves the array as it was. */
  lemma {:induction false} WithoutNoMatch<T>(s: seq<T>, p: T -> bool)
    requires forall j :: 0 <= j < |s| ==> !p(s[j])
    ensures Without(s, p) == s
  {
    if |s| > 0 {
      assert s == [s[0]] + s[1..];
      WithoutNoMatch(s[1..], p);
    }
  }

  /** Pulling twice pulls nothing more. */
  lemma WithoutIdempotent<T>(s: seq<T>, p: T -> bool)
    ensures Without(Without(s, p), p) == Without(s, p)
  {
    WithoutNoMatch(Without(s, p), p);
  }

  /** deleteOne removes the first match, if any, and shifts what follows it
      down by one place. */
  lemma DeleteOneShift<T>(s: seq<T>, p: T -> bool)
    ensures match FirstMatch(s, p)
      case None => DeleteOne(s, p) == s
      case Some(k) =>
        && |DeleteOne(s, p)| == |s| - 1
        && forall i :: 0 <= i < |DeleteOne(s, p)| ==> DeleteOne(s, p)[i] == s[if i < k then i else i + 1]
  {
  }

  /** After deleteOne, a document not matching the filter is still there,
      and if at most one document matched, none matches any more. */
  lemma DeleteOneEffect<T>(s: seq<T>, p: T -> bool)
    ensures forall j :: 0 <= j < |s| && !p(s[j]) ==> s[j] in DeleteOne(s, p)
    ensures AtMostOne(s, p) ==> forall j :: 0 <= j < |DeleteOne(s, p)| ==> !p(DeleteOne(s, p)[j])
  {
  }
}
