/** Methods, header maps and the case-insensitive contract that header lookup rests on. */
module HttpTypes {

  datatype HttpMethod = GET | POST | PUT | PATCH | DEL | OPTIONS | HEAD | UNKNOWN

  function ToMethod(m: string): HttpMethod {
    if m == "GET" then GET
    else if m == "POST" then POST
    else if m == "PUT" then PUT
    else if m == "PATCH" then PATCH
    else if m == "DELETE" then DEL
    else if m == "OPTIONS" then OPTIONS
    else if m == "HEAD" then HEAD
    else UNKNOWN
  }

  predicate Known(name: string) {
    name in ["GET", "POST", "PUT", "PATCH", "DELETE", "OPTIONS", "HEAD"]
  }

  /** Different names are different methods, apart from those that are no method; and no other spelling is HEAD. */
  lemma MethodsAreNames(a: string, b: string)
    ensures ToMethod(a) == ToMethod(b) <==> a == b || (!Known(a) && !Known(b))
    ensures ToMethod(a) == UNKNOWN <==> !Known(a)
    ensures ToMethod(a) == HEAD <==> a == "HEAD"
    ensures ToMethod(a) == OPTIONS <==> a == "OPTIONS"
  {
  }

  function MethodIndex(m: HttpMethod): (index: nat)
    ensures index < 8
    ensures index == 7 <==> m == UNKNOWN
  {
    match m
    case GET => 0
    case POST => 1
    case PUT => 2
    case PATCH => 3
    case DEL => 4
    case OPTIONS => 5
    case HEAD => 6
    case UNKNOWN => 7
  }

  lemma MethodIndexInjective(a: HttpMethod, b: HttpMethod)
    ensures MethodIndex(a) == MethodIndex(b) <==> a == b
  {
  }

  // ---------- case folding ----------

  function Lower(c: char): char {
    if 'A' <= c <= 'Z' then (c as int + 32) as char else c
  }

  function Fold(s: string): (f: string)
    ensures |f| == |s|
    ensures forall i :: 0 <= i < |s| ==> f[i] == Lower(s[i])
  {
    seq(|s|, i requires 0 <= i < |s| => Lower(s[i]))
  }

  /** The same character, or the small and the capital of one letter. */
  predicate SameLetter(a: char, b: char) {
    || a == b
    || ('A' <= a <= 'Z' && b as int == a as int + 32)
    || ('A' <= b <= 'Z' && a as int == b as int + 32)
  }

  /** Names have one folding exactly when they differ in the case of ASCII letters only. */
  lemma FoldIgnoresCase(a: string, b: string)
    ensures Fold(a) == Fold(b) <==> |a| == |b| && forall i :: 0 <= i < |a| ==> SameLetter(a[i], b[i])
  {
    if Fold(a) == Fold(b) {
      assert |a| == |Fold(a)| == |b|;
      assert forall i :: 0 <= i < |a| ==> Fold(a)[i] == Fold(b)[i];
    }
  }

  /** `CaseInsensitiveEqual`: equality of folded strings, so an equivalence. */
  method CaseInsensitiveEqual(a: string, b: string) returns (equal: bool)
    ensures equal <==> Fold(a) == Fold(b)
  {
    if |a| != |b| {
      return false;
    }
    var i := 0;
    while i < |a|
      invariant i <= |a|
      invariant forall j :: 0 <= j < i ==> Lower(a[j]) == Lower(b[j])
    {
      var ca, cb := a[i], b[i];
      if 'A' <= ca <= 'Z' {
        ca := (ca as int + 32) as char;
      }
      if 'A' <= cb <= 'Z' {
        cb := (cb as int + 32) as char;
      }
      if ca != cb {
        assert Fold(a)[i] != Fold(b)[i];
        return false;
      }
      i := i + 1;
    }
    return true;
  }

  /** FNV-1a over 64 bits. */
  const FNV_OFFSET: bv64 := 14695981039346656037
  const FNV_PRIME: bv64 := 1099511628211

  function Mix(hash: bv64, c: char): bv64 {
    (hash ^ (c as int as bv64)) * FNV_PRIME
  }

  function Fnv(s: string): bv64 {
    if s == "" then FNV_OFFSET else Mix(Fnv(s[..|s| - 1]), s[|s| - 1])
  }

  /** The published hash of the one-byte text `a`. */
  lemma FnvOfA()
    ensures Fnv("a") == 0xaf63dc4c8601ec8c
  {
    assert "a"[..0] == "";
    assert (97 as bv64) == ('a' as int as bv64);
  }

  /** `CaseInsensitiveStringViewHash`: the FNV-1a hash of the folded name. */
  method CaseInsensitiveHash(s: string) returns (hash: bv64)
    ensures hash == Fnv(Fold(s))
  {
    hide Mix;
    hash := FNV_OFFSET;
    var i := 0;
    while i < |s|
      invariant i <= |s|
      invariant hash == Fnv(Fold(s)[..i])
    {
      var uc := s[i];
      if 'A' <= uc <= 'Z' {
        uc := (uc as int + 32) as char;
      }
      assert Fold(s)[..i + 1][..i] == Fold(s)[..i];
      hash := Mix(hash, uc);
      i := i + 1;
    }
    assert Fold(s)[..|s|] == Fold(s);
  }

  /** Folding twice changes nothing, so a folded name is found under every spelling of itself. */
  lemma FoldIdempotent(s: string)
    ensures Fold(Fold(s)) == Fold(s)
  {
  }
}
