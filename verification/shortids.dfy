/**
 * Short ids: the 62-letter alphabet they are drawn from, the store key that holds a paste,
 * and the route pattern `^(|/(p|clone))/([a-zA-Z0-9]+)$` that reads an id back out of a path.
 */
module ShortIds {
  import opened Wrappers
  import opened Pastes

  /** letterRunes: lower case, upper case, then the digits 1 to 9 and 0. */
  const Letters: string := "abcdefghijklmnopqrstuvwxyzABCDEFGHIJKLMNOPQRSTUVWXYZ1234567890"

  /** What rand.Intn(len(letterRunes)) may return. */
  type LetterIndex = i: int | 0 <= i < 62

  /** The length generateUrl asks randomString for. */
  const IdLength: nat := 4

  /** The regular expression class [a-zA-Z0-9]. */
  predicate IsAlnum(c: char) {
    'a' <= c <= 'z' || 'A' <= c <= 'Z' || '0' <= c <= '9'
  }

  /** Text matched by [a-zA-Z0-9]+. */
  predicate IsId(s: string) {
    0 < |s| && forall i :: 0 <= i < |s| ==> IsAlnum(s[i])
  }

  /** The n consecutive characters starting at lo. */
  function CharRange(lo: char, n: nat): (s: string)
    requires (lo as int) + n <= 0xD800
    ensures |s| == n && forall i :: 0 <= i < n ==> s[i] as int == (lo as int) + i
  {
    seq(n, i requires 0 <= i < n => ((lo as int) + i) as char)
  }

  /** The alphabet is a-z, then A-Z, then 1-9, then 0. */
  lemma LettersLayout()
    ensures Letters == CharRange('a', 26) + CharRange('A', 26) + CharRange('1', 9) + "0"
  {
    LowerRange();
    UpperRange();
    DigitRange();
    assert Letters == "abcdefghijklmnopqrstuvwxyz" + "ABCDEFGHIJKLMNOPQRSTUVWXYZ" + "123456789" + "0";
  }

  lemma LowerRange()
    ensures CharRange('a', 26) == "abcdefghijklmnopqrstuvwxyz"
  {
  }

  lemma UpperRange()
    ensures CharRange('A', 26) == "ABCDEFGHIJKLMNOPQRSTUVWXYZ"
  {
  }

  lemma DigitRange()
    ensures CharRange('1', 9) == "123456789"
  {
  }

  /** The alphabet has 62 letters, all of them in [a-zA-Z0-9]. */
  lemma LettersAreAlnum()
    ensures |Letters| == 62
    ensures forall i :: 0 <= i < |Letters| ==> IsAlnum(Letters[i])
  {
    LettersLayout();
  }

  /** Every character of [a-zA-Z0-9] is in the alphabet, so the two are the same set. */
  lemma AlnumInLetters(c: char)
    requires IsAlnum(c)
    ensures c in Letters
  {
    LettersLayout();
    var i: int;
    if 'a' <= c <= 'z' {
      i := (c as int) - ('a' as int);
    } else if 'A' <= c <= 'Z' {
      i := 26 + (c as int) - ('A' as int);
    } else if c == '0' {
      i := 61;
    } else {
      i := 52 + (c as int) - ('1' as int);
    }
    assert Letters[i] == c;
  }

  /**
   * The n letters randomString builds from the chooser's values at positions
   * from, from + 1, ..., from + n - 1.
   */
  function Drawn(draw: nat -> LetterIndex, from: nat, n: nat): (s: string)
    ensures |s| == n
  {
    seq(n, i requires 0 <= i < n => Letters[draw(from + i)])
  }

  /** Every drawn string is a run of alphabet letters. */
  lemma DrawnIsId(draw: nat -> LetterIndex, from: nat, n: nat)
    requires 0 < n
    ensures IsId(Drawn(draw, from, n))
    ensures forall i :: 0 <= i < n ==> Drawn(draw, from, n)[i] in Letters
  {
    LettersAreAlnum();
  }

  /**
   * The id drawn at attempt k of generateUrl: attempt 0 is the draw made before the loop,
   * attempt k uses the chooser's values 4k to 4k + 3.
   */
  function Candidate(draw: nat -> LetterIndex, attempt: nat): (id: string)
    ensures |id| == IdLength && IsId(id)
  {
    DrawnIsId(draw, IdLength * attempt, IdLength);
    Drawn(draw, IdLength * attempt, IdLength)
  }

  const KeyPrefix: string := "paste:"

  /** The store key that holds paste `id`. */
  function Key(id: string): (k: string)
    ensures |k| == |KeyPrefix| + |id| && k[..|KeyPrefix|] == KeyPrefix && k[|KeyPrefix|..] == id
  {
    KeyPrefix + id
  }

  /** Different ids live under different keys. */
  lemma KeyInjective(a: string, b: string)
    requires Key(a) == Key(b)
    ensures a == b
  {
    assert a == Key(a)[|KeyPrefix|..];
  }

  /**
   * validPath.FindStringSubmatch(path)[3]: the id of `/<id>`, `/p/<id>` or `/clone/<id>`,
   * or InvalidRoute.
   */
  function ParseRoute(path: string): (r: Result<string, Error>)
    ensures r.Failure? ==> r.error == InvalidRoute
    ensures r.Success? ==> IsId(r.value)
  {
    if 1 <= |path| && path[0] == '/' && IsId(path[1..]) then Success(path[1..])
    else if 3 <= |path| && path[..3] == "/p/" && IsId(path[3..]) then Success(path[3..])
    else if 7 <= |path| && path[..7] == "/clone/" && IsId(path[7..]) then Success(path[7..])
    else Failure(InvalidRoute)
  }

  /** The paths the route pattern matches, with the id it captures. */
  predicate RouteOf(path: string, id: string) {
    IsId(id) && (path == "/" + id || path == "/p/" + id || path == "/clone/" + id)
  }

  /** ParseRoute accepts exactly the three route shapes and returns the id they carry. */
  lemma ParseRouteExact(path: string, id: string)
    ensures ParseRoute(path) == Success(id) <==> RouteOf(path, id)
  {
    if RouteOf(path, id) {
      if path == "/p/" + id {
        assert path[1..][1] == '/';
        assert !IsId(path[1..]);
        assert path[..3] == "/p/" && path[3..] == id;
      } else if path == "/clone/" + id {
        assert path[1..][5] == '/';
        assert !IsId(path[1..]);
        assert path[1] == 'c';
        assert path[..7] == "/clone/" && path[7..] == id;
      } else {
        assert path[1..] == id;
      }
    }
    if ParseRoute(path) == Success(id) {
      if 1 <= |path| && path[0] == '/' && IsId(path[1..]) {
        assert path == "/" + path[1..];
      } else if 3 <= |path| && path[..3] == "/p/" && IsId(path[3..]) {
        assert path == path[..3] + path[3..];
      } else {
        assert path == path[..7] + path[7..];
      }
    }
  }

  /** Every id generateUrl can draw is read back by all three routes. */
  lemma CandidateRoutes(draw: nat -> LetterIndex, attempt: nat)
    ensures ParseRoute("/" + Candidate(draw, attempt)) == Success(Candidate(draw, attempt))
    ensures ParseRoute("/p/" + Candidate(draw, attempt)) == Success(Candidate(draw, attempt))
    ensures ParseRoute("/clone/" + Candidate(draw, attempt)) == Success(Candidate(draw, attempt))
  {
    var id := Candidate(draw, attempt);
    ParseRouteExact("/" + id, id);
    ParseRouteExact("/p/" + id, id);
    ParseRouteExact("/clone/" + id, id);
  }
}
