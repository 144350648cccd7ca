/**
 * The name hash of scripts/main.js: the classic multiplier-31 polynomial
 * string hash, computed on the lower-cased name and reduced to a signed
 * 32-bit integer after every character, as JavaScript's `<<` and `&`
 * operators do.
 */
module Hashing {

  const Two31: int := 0x8000_0000
  const Two32: int := 0x1_0000_0000

  /** A value JavaScript's 32-bit operators can produce. */
  predicate IsInt32(x: int) {
    -Two31 <= x < Two31
  }

  /** ToInt32: reduction of an exact integer into [-2^31, 2^31), i.e. modulo 2^32. */
  function Wrap32(x: int): (r: int)
    ensures IsInt32(r)
    ensures IsInt32(x) ==> r == x
    ensures exists k :: x == r + Two32 * k
  {
    var r := (x + Two31) % Two32 - Two31;
    assert x == r + Two32 * ((x + Two31) / Two32);
    r
  }

  /** Adding a multiple of 2^32 does not change the 32-bit value. */
  lemma Wrap32Periodic(x: int, k: int)
    ensures Wrap32(x + Two32 * k) == Wrap32(x)
  {
  }

  // ---------------------------------------------------------------------
  // Characters

  /** `toLowerCase`, restricted to the ASCII letters. */
  function LowerChar(c: char): (d: char)
    ensures !('A' <= d <= 'Z')
    ensures 'A' <= c <= 'Z' ==> d as int == c as int + 32
    ensures !('A' <= c <= 'Z') ==> d == c
  {
    if 'A' <= c <= 'Z' then (c as int + 32) as char else c
  }

  /** `toLowerCase` on a whole name, character by character. */
  function Lower(s: seq<char>): (r: seq<char>)
    ensures |r| == |s|
    ensures forall i :: 0 <= i < |s| ==> r[i] == LowerChar(s[i])
  {
    seq(|s|, i requires 0 <= i < |s| => LowerChar(s[i]))
  }

  /** Lower-casing twice is lower-casing once. */
  lemma LowerIdempotent(s: seq<char>)
    ensures Lower(Lower(s)) == Lower(s)
  {
  }

  /** Two names that differ only in the case of ASCII letters. */
  predicate SameUpToCase(s: seq<char>, t: seq<char>) {
    |s| == |t| && forall i :: 0 <= i < |s| ==> LowerChar(s[i]) == LowerChar(t[i])
  }

  /**
   * `c.charCodeAt(0)` for the one-code-point string `c` that `for ... of`
   * yields: the code point itself in the Basic Multilingual Plane, and the
   * leading (high) surrogate of its UTF-16 encoding above it.
   */
  function CodeUnit(c: char): (u: int)
    ensures 0 <= u < 0x1_0000
    ensures c as int < 0x1_0000 ==> u == c as int
    ensures c as int >= 0x1_0000 ==> 0xD800 <= u < 0xDC00 && (c as int - 0x1_0000) / 0x400 == u - 0xD800
  {
    if c as int < 0x1_0000 then c as int else 0xD800 + (c as int - 0x1_0000) / 0x400
  }

  // ---------------------------------------------------------------------
  // The hash

  /** One update as the source writes it: `((hash<<5)-hash)+code`, then `hash & hash`. */
  function JsStep(hash: int, code: int): (r: int)
    ensures IsInt32(r)
  {
    Wrap32(Wrap32(hash * 32) - hash + code)
  }

  /** The shift-and-subtract update is the multiply-by-31 update, modulo 2^32. */
  lemma JsStepIsTimes31(hash: int, code: int)
    ensures JsStep(hash, code) == Wrap32(31 * hash + code)
  {
  }

  /** The 32-bit hash of an already lower-cased string, one wrapped step per character. */
  function Poly(s: seq<char>): (h: int)
    ensures IsInt32(h)
    ensures s == [] ==> h == 0
  {
    if s == [] then 0 else Wrap32(31 * Poly(s[..|s| - 1]) + CodeUnit(s[|s| - 1]))
  }

  /** The same recurrence over unbounded integers, with no wrap at any step. */
  function PolyExact(s: seq<char>): int {
    if s == [] then 0 else 31 * PolyExact(s[..|s| - 1]) + CodeUnit(s[|s| - 1])
  }

  /** What hash_code returns for a name. */
  function HashSpec(name: seq<char>): (h: int)
    ensures IsInt32(h)
  {
    Poly(Lower(name))
  }

  /** Wrapping after every step gives the unwrapped recurrence reduced modulo 2^32 once. */
  lemma {:induction false} PolyIsExactMod32(s: seq<char>)
    ensures Poly(s) == Wrap32(PolyExact(s))
  {
    if s != [] {
      var p := s[..|s| - 1];
      var c := CodeUnit(s[|s| - 1]);
      PolyIsExactMod32(p);
      var q :| PolyExact(p) == Wrap32(PolyExact(p)) + Two32 * q;
      assert 31 * Poly(p) + c == PolyExact(s) + Two32 * (-31 * q);
      Wrap32Periodic(PolyExact(s), -31 * q);
    }
  }

  /** A left fold of the update from a given accumulator, the shape of the source's loop. */
  function FoldFrom(acc: int, s: seq<char>): int
    decreases |s|
  {
    if s == [] then acc else FoldFrom(Wrap32(31 * acc + CodeUnit(s[0])), s[1..])
  }

  lemma {:induction false} FoldFromSnoc(acc: int, s: seq<char>, c: char)
    ensures FoldFrom(acc, s + [c]) == Wrap32(31 * FoldFrom(acc, s) + CodeUnit(c))
    decreases |s|
  {
    if s == [] {
      assert [c][1..] == [];
    } else {
      assert (s + [c])[1..] == s[1..] + [c];
      FoldFromSnoc(Wrap32(31 * acc + CodeUnit(s[0])), s[1..], c);
    }
  }

  /** The hash is the fold `acc := wrap32(31 * acc + code)` from 0 over the string. */
  lemma {:induction false} PolyIsFoldFromZero(s: seq<char>)
    ensures Poly(s) == FoldFrom(0, s)
  {
    if s != [] {
      var p := s[..|s| - 1];
      assert s == p + [s[|s| - 1]];
      PolyIsFoldFromZero(p);
      FoldFromSnoc(0, p, s[|s| - 1]);
    }
  }

  /** hash_code: lower-case the name, then run the update over each character. */
  method HashCode(name: seq<char>) returns (hash: int)
    ensures hash == HashSpec(name)
    ensures IsInt32(hash)
  {
    var lowered := Lower(name);
    hash := 0;
    var i := 0;
    while i < |lowered|
      invariant 0 <= i <= |lowered|
      invariant hash == Poly(lowered[..i])
    {
      var code := CodeUnit(lowered[i]);
      JsStepIsTimes31(hash, code);
      assert lowered[..i + 1][..i] == lowered[..i];
      hash := JsStep(hash, code);
      i := i + 1;
    }
    assert lowered[..i] == lowered;
  }

  /** Case does not matter: a name hashes like its lower-cased form. */
  lemma HashIgnoresCase(name: seq<char>)
    ensures HashSpec(name) == HashSpec(Lower(name))
  {
    LowerIdempotent(name);
  }

  /** Names equal up to ASCII case have equal hashes. */
  lemma HashSameUpToCase(s: seq<char>, t: seq<char>)
    requires SameUpToCase(s, t)
    ensures HashSpec(s) == HashSpec(t)
  {
    assert Lower(s) == Lower(t);
  }

  lemma HashExamples()
    ensures HashSpec("") == 0
    ensures HashSpec("a") == 97
    ensures HashSpec("Clone") == HashSpec("clone")
    ensures HashSpec("LEGO") == 3317793
  {
    HashSameUpToCase("Clone", "clone");
    assert Lower("LEGO") == "lego";
    var l := "lego";
    assert l[..3] == "leg" && l[..3][..2] == "le" && l[..3][..2][..1] == "l";
    assert Poly("l") == 108;
    assert Poly("le") == 3449;
    assert Poly("leg") == 107022;
    assert Poly("lego") == 3317793;
  }
}
