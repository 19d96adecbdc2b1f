/**
 * swapOrAddExtension, identical in both drivers: the output file name is
 * the input name up to and including its last '.' followed by the new
 * extension, or, when the name has no dot, its first strnlen(name, 256)
 * characters, a '.' and the extension. The search for the dot looks at
 * positions 0, ..., 256 only.
 * Names are C strings: a sequence of non-NUL characters read through a
 * NUL terminator.
 */
module FileNames {

  const MaxStrSz: nat := 256

  ghost predicate NoNul(s: seq<char>) {
    forall k :: 0 <= k < |s| ==> s[k] != '\0'
  }

  /** strnlen(s, 256). */
  function Strnlen(s: seq<char>): (r: nat)
    ensures r <= MaxStrSz && r <= |s| && (r < MaxStrSz ==> r == |s|)
  {
    if |s| < MaxStrSz then |s| else MaxStrSz
  }

  /** The byte at position i of the C string s: its terminator past the end. */
  function CharAt(s: seq<char>, i: nat): char
  {
    if i < |s| then s[i] else '\0'
  }

  /**
   * The position the backward scan from strnlen(name, 256) stops at: the
   * last '.' at a position up to Strnlen(name), or -1 when there is none.
   */
  function LastDot(name: seq<char>): (i: int)
    ensures -1 <= i <= Strnlen(name)
    ensures i >= 0 ==> i < |name| && name[i] == '.'
    ensures forall j :: i < j <= Strnlen(name) ==> CharAt(name, j) != '.'
  {
    LastDotFrom(name, Strnlen(name))
  }

  /** The scan from position i down. */
  function LastDotFrom(name: seq<char>, i: int): (r: int)
    requires -1 <= i <= Strnlen(name)
    ensures -1 <= r <= i
    ensures r >= 0 ==> r < |name| && name[r] == '.'
    ensures forall j :: r < j <= i ==> CharAt(name, j) != '.'
    decreases i + 1
  {
    if i < 0 then -1
    else if CharAt(name, i) == '.' then i
    else LastDotFrom(name, i - 1)
  }

  /**
   * The new name: the C string the buffer holds afterwards. Without a dot
   * the '.' is stored at position strnlen(name, 256), so a longer name is
   * cut there.
   */
  function SwapOrAdd(name: seq<char>, ext: seq<char>): (r: seq<char>)
  {
    var i := LastDot(name);
    if i >= 0 then name[..i + 1] + ext else name[..Strnlen(name)] + "." + ext
  }

  /** With a dot in range: the name up to and including its last such dot, then the extension. */
  lemma SwapCase(name: seq<char>, ext: seq<char>)
    requires LastDot(name) >= 0
    ensures var i := LastDot(name);
            SwapOrAdd(name, ext) == name[..i + 1] + ext && name[i] == '.' &&
            forall j :: i < j < |name| && j <= MaxStrSz ==> name[j] != '.'
  {
    var i := LastDot(name);
    forall j | i < j < |name| && j <= MaxStrSz
      ensures name[j] != '.'
    {
      assert CharAt(name, j) == name[j];
    }
  }

  /**
   * Without a dot in range: the name cut at strnlen(name, 256), a '.' and
   * the extension; for a name of at most 256 characters the whole name.
   */
  lemma AddCase(name: seq<char>, ext: seq<char>)
    requires forall j :: 0 <= j < |name| && j <= MaxStrSz ==> name[j] != '.'
    ensures SwapOrAdd(name, ext) == name[..Strnlen(name)] + "." + ext
    ensures |name| <= MaxStrSz ==> SwapOrAdd(name, ext) == name + "." + ext
  {
    forall j | 0 <= j <= Strnlen(name)
      ensures CharAt(name, j) != '.'
    {
      if j < |name| {
        assert CharAt(name, j) == name[j];
      }
    }
    LastDotNone(name, Strnlen(name));
  }

  /** Either way the new name ends with '.' and the extension. */
  lemma EndsWithExtension(name: seq<char>, ext: seq<char>)
    ensures var r := SwapOrAdd(name, ext);
            |r| >= |ext| + 1 && r[|r| - |ext| - 1..] == "." + ext
  {
    var i := LastDot(name);
    var r := SwapOrAdd(name, ext);
    if i >= 0 {
      assert r[|r| - |ext| - 1..] == name[i..i + 1] + ext;
    } else {
      assert r[|r| - |ext| - 1..] == "." + ext;
    }
  }

  /**
   * For a dot-free extension a second swap changes nothing: the dot the
   * first one leaves is at a position up to 256, where the scan finds it.
   */
  lemma SwapIdempotent(name: seq<char>, ext: seq<char>)
    requires NoNul(name) && forall k :: 0 <= k < |ext| ==> ext[k] != '.'
    ensures SwapOrAdd(SwapOrAdd(name, ext), ext) == SwapOrAdd(name, ext)
  {
    var i := LastDot(name);
    var r := SwapOrAdd(name, ext);
    var p := if i >= 0 then i else Strnlen(name);
    assert r == r[..p + 1] + ext && r[p] == '.';
    assert p <= Strnlen(r);
    forall j | p < j <= Strnlen(r)
      ensures CharAt(r, j) != '.'
    {
      if j < |r| {
        assert r[j] == ext[j - p - 1];
      }
    }
    assert LastDotFrom(r, Strnlen(r)) == p by {
      LastDotAt(r, Strnlen(r), p);
    }
  }

  /** The scan from i finds p when p holds a dot and nothing between p and i does. */
  lemma {:induction false} LastDotAt(s: seq<char>, i: int, p: nat)
    requires p <= i <= Strnlen(s) && p < |s| && s[p] == '.'
    requires forall j :: p < j <= i ==> CharAt(s, j) != '.'
    ensures LastDotFrom(s, i) == p
    decreases i
  {
    if i > p {
      LastDotAt(s, i - 1, p);
    }
  }

  // The buffer the program allocates, as written and as intended.

  /** Bytes calloc'ed by the no-dot branch as written: strnlen of both strings plus two. */
  function NoDotAllocated(name: seq<char>, ext: seq<char>): nat
  {
    Strnlen(name) + Strnlen(ext) + 2
  }

  /**
   * Bytes the no-dot branch as written stores from the start of the
   * buffer: strcpy of the whole name with its terminator, then the '.'
   * and the extension with its terminator after strnlen(name) bytes.
   */
  function NoDotWritten(name: seq<char>, ext: seq<char>): nat
  {
    var a := |name| + 1;
    var b := Strnlen(name) + 1 + |ext| + 1;
    if a < b then b else a
  }

  /** A dot-free name of 300 characters and the extension "btw" overflow the buffer by 41 bytes. */
  lemma NoDotOverflows()
    ensures var name := seq(300, _ => 'a');
            LastDot(name) == -1 &&
            NoDotAllocated(name, "btw") == 261 && NoDotWritten(name, "btw") == 301
  {
    var name := seq(300, _ => 'a');
    forall j | 0 <= j <= Strnlen(name)
      ensures CharAt(name, j) != '.'
    {
    }
    LastDotNone(name, Strnlen(name));
  }

  /** The scan from i finds nothing when no position up to i holds a dot. */
  lemma {:induction false} LastDotNone(s: seq<char>, i: int)
    requires -1 <= i <= Strnlen(s)
    requires forall j :: 0 <= j <= i ==> CharAt(s, j) != '.'
    ensures LastDotFrom(s, i) == -1
    decreases i + 1
  {
    if i >= 0 {
      LastDotNone(s, i - 1);
    }
  }

  /** The evidently intended allocation fits every name and extension. */
  lemma IntendedFits(name: seq<char>, ext: seq<char>)
    ensures |SwapOrAdd(name, ext)| + 1 <= if LastDot(name) >= 0 then LastDot(name) + |ext| + 2 else |name| + |ext| + 2
  {
  }

  /** buf[at..at + |src|] := src, byte by byte (strcpy and strncpy without the terminator). */
  method CopyInto(buf: array<char>, at: nat, src: seq<char>)
    requires at + |src| <= buf.Length
    modifies buf
    ensures buf[..] == old(buf[..])[..at] + src + old(buf[..])[at + |src|..]
  {
    var k := 0;
    while k < |src|
      invariant 0 <= k <= |src|
      invariant buf[..] == old(buf[..])[..at] + src[..k] + old(buf[..])[at + k..]
    {
      buf[at + k] := src[k];
      k := k + 1;
      assert src[..k] == src[..k - 1] + [src[k - 1]];
    }
  }

  /** Lines 38-42: the name through its dot at i, then the extension, in a buffer of i + |ext| + 2 bytes. */
  method FillSwap(name: seq<char>, ext: seq<char>, i: nat) returns (out: array<char>)
    requires i < |name|
    ensures out.Length == i + |ext| + 2 && out[..] == name[..i + 1] + ext + ['\0']
  {
    out := new char[i + |ext| + 2](_ => '\0');
    CopyInto(out, 0, name[..i + 1]);
    CopyInto(out, i + 1, ext);
    assert out[i + |ext| + 1..] == ['\0'];
  }

  /**
   * Lines 47-50 in a buffer of |name| + |ext| + 2 bytes: strcpy of the name,
   * a '.' over position p = strnlen(name, 256), then strcpy of the extension
   * from p + 1. The buffer starts with the name cut at p, the '.', the
   * extension and a terminator.
   */
  method FillAdd(name: seq<char>, ext: seq<char>) returns (out: array<char>)
    ensures var p := Strnlen(name);
            out.Length == |name| + |ext| + 2 && out[..p + |ext| + 2] == name[..p] + "." + ext + ['\0']
  {
    var p := Strnlen(name);
    out := new char[|name| + |ext| + 2](_ => '\0');
    CopyInto(out, 0, name + ['\0']);
    assert out[..p] == name[..p];
    out[p] := '.';
    assert out[..p + 1] == name[..p] + ".";
    ghost var y := out[..];
    CopyInto(out, p + 1, ext + ['\0']);
    assert out[..p + |ext| + 2] == y[..p + 1] + ext + ['\0'];
  }

  /**
   * Lines 33-54 with the buffers sized by the full lengths of the strings:
   * the buffer holds the new name followed by its terminator.
   */
  method SwapOrAddExtension(name: seq<char>, ext: seq<char>) returns (out: array<char>)
    ensures var r := SwapOrAdd(name, ext);
            |r| < out.Length && out[..|r|] == r && out[|r|] == '\0'
  {
    var i: int := Strnlen(name);
    while i >= 0
      invariant -1 <= i <= Strnlen(name)
      invariant LastDotFrom(name, i) == LastDot(name)
    {
      if CharAt(name, i) == '.' {
        break;
      }
      i := i - 1;
    }
    ghost var r := SwapOrAdd(name, ext);
    if i >= 0 {
      out := FillSwap(name, ext, i);
    } else {
      out := FillAdd(name, ext);
    }
    assert out[..|r| + 1] == r + ['\0'];
    assert out[..|r|] == out[..|r| + 1][..|r|];
  }
}
