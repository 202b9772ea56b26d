/** M_StringReplace and M_StringCopy (m_misc.c). A C string is the sequence of its characters
    before the terminator; the buffers that are written are arrays. */
module StringReplace {

  import opened Wrappers

  const NUL := '\0'
  const SIZE_LIMIT := 0x1_0000_0000_0000_0000  // size_t wraps around here

  predicate OccursAt(h: string, n: string, i: nat) {
    i + |n| <= |h| && h[i..i + |n|] == n
  }

  /** strstr from position p on. */
  function StrStr(h: string, n: string, p: nat): (r: Option<nat>)
    requires p <= |h|
    ensures r.None? ==> forall i | p <= i :: !OccursAt(h, n, i)
    ensures r.Some? ==> p <= r.value && r.value + |n| <= |h|
    ensures r.Some? ==> OccursAt(h, n, r.value) && forall i | p <= i < r.value :: !OccursAt(h, n, i)
    decreases |h| - p
  {
    if OccursAt(h, n, p) then Some(p)
    else if p == |h| then None
    else StrStr(h, n, p + 1)
  }

  /** How many occurrences the sizing pass steps over. */
  function Count(h: string, n: string, p: nat): nat
    requires p <= |h| && n != []
    decreases |h| - p
  {
    match StrStr(h, n, p)
    case None => 0
    case Some(i) => 1 + Count(h, n, i + |n|)
  }

  /** The stretches of the string between those occurrences. */
  function Pieces(h: string, n: string, p: nat): (r: seq<string>)
    requires p <= |h| && n != []
    ensures |r| == Count(h, n, p) + 1
    decreases |h| - p
  {
    match StrStr(h, n, p)
    case None => [h[p..]]
    case Some(i) => [h[p..i]] + Pieces(h, n, i + |n|)
  }

  function Join(pieces: seq<string>, sep: string): string
    requires pieces != []
  {
    if |pieces| == 1 then pieces[0] else pieces[0] + sep + Join(pieces[1..], sep)
  }

  /** What the filling pass produces: scanning once, left to right. */
  function Replace(h: string, n: string, r: string): string
    requires n != []
    decreases |h|
  {
    if h == [] then []
    else if n <= h then r + Replace(h[|n|..], n, r)
    else [h[0]] + Replace(h[1..], n, r)
  }

  lemma OccursAtPrefix(h: string, n: string, p: nat)
    requires p <= |h|
    ensures OccursAt(h, n, p) <==> n <= h[p..]
  {
    assert p + |n| <= |h| ==> h[p..p + |n|] == h[p..][..|n|];
  }

  lemma SliceOfSlice(s: string, p: nat, q: nat, i: nat, j: nat)
    requires p <= q <= |s| && i <= j <= q - p
    ensures s[p..q][i..j] == s[p + i..p + j]
  {
    var a, b := s[p..q][i..j], s[p + i..p + j];
    assert forall k | 0 <= k < j - i :: a[k] == b[k];
  }

  lemma OccursInSlice(h: string, n: string, p: nat, q: nat, i: nat)
    requires p <= q <= |h|
    ensures OccursAt(h[p..q], n, i) <==> i + |n| <= q - p && OccursAt(h, n, p + i)
  {
    if i + |n| <= q - p {
      SliceOfSlice(h, p, q, i, i + |n|);
    }
  }

  /** One round of the second pass. */
  lemma ReplaceFrom(h: string, n: string, r: string, p: nat)
    requires p <= |h| && n != []
    ensures OccursAt(h, n, p) <==> n <= h[p..]
    ensures p == |h| ==> h[p..] == [] && Replace(h[p..], n, r) == [] && !OccursAt(h, n, p)
    ensures OccursAt(h, n, p) ==> p + |n| <= |h| && Replace(h[p..], n, r) == r + Replace(h[p + |n|..], n, r)
    ensures p < |h| && !OccursAt(h, n, p) ==> Replace(h[p..], n, r) == [h[p]] + Replace(h[p + 1..], n, r)
  {
    OccursAtPrefix(h, n, p);
    if p == |h| {
    } else if n <= h[p..] {
      assert h[p..][|n|..] == h[p + |n|..];
    } else {
      assert h[p..][1..] == h[p + 1..];
    }
  }

  lemma JoinFront(piece: string, pieces: seq<string>, sep: string)
    requires pieces != []
    ensures Join([piece] + pieces, sep) == piece + sep + Join(pieces, sep)
  {
    assert ([piece] + pieces)[1..] == pieces;
  }

  lemma JoinOne(piece: string, sep: string)
    ensures Join([piece], sep) == piece
  {
  }

  lemma JoinShift(h: string, r: string, p: nat, i: nat, rest: seq<string>)
    requires p < i <= |h| && rest != []
    ensures Join([h[p..i]] + rest, r) == [h[p]] + Join([h[p + 1..i]] + rest, r)
  {
    JoinFront(h[p..i], rest, r);
    JoinFront(h[p + 1..i], rest, r);
    assert h[p..i] == [h[p]] + h[p + 1..i];
  }

  lemma PiecesStep(h: string, n: string, r: string, p: nat)
    requires p < |h| && n != [] && !OccursAt(h, n, p)
    ensures Join(Pieces(h, n, p), r) == [h[p]] + Join(Pieces(h, n, p + 1), r)
  {
    hide Join, OccursAt;
    assert StrStr(h, n, p) == StrStr(h, n, p + 1);
    match StrStr(h, n, p + 1)
    case None =>
      JoinOne(h[p..], r);
      JoinOne(h[p + 1..], r);
      assert h[p..] == [h[p]] + h[p + 1..];
    case Some(i) =>
      JoinShift(h, r, p, i, Pieces(h, n, i + |n|));
  }

  /** The two passes agree: what the one-character-at-a-time scan replaces is exactly the
      separators that the strstr search finds, leaving the same pieces between them. */
  lemma {:induction false} ReplaceJoins(h: string, n: string, r: string, p: nat)
    requires p <= |h| && n != []
    ensures Replace(h[p..], n, r) == Join(Pieces(h, n, p), r)
    decreases |h| - p
  {
    hide OccursAt, Count, Replace;
    ReplaceFrom(h, n, r, p);
    if p == |h| {
    } else if OccursAt(h, n, p) {
      assert StrStr(h, n, p) == Some(p) && h[p..p] == [];
      ReplaceJoins(h, n, r, p + |n|);
      JoinFront([], Pieces(h, n, p + |n|), r);
    } else {
      ReplaceJoins(h, n, r, p + 1);
      PiecesStep(h, n, r, p);
    }
  }

  /** Replacing the needle by itself changes nothing: the pieces and separators make up the string. */
  lemma {:induction false} ReplaceByItself(h: string, n: string)
    requires n != []
    ensures Replace(h, n, n) == h
    decreases |h|
  {
    if h == [] {
    } else if n <= h {
      ReplaceByItself(h[|n|..], n);
      assert h == n + h[|n|..];
    } else {
      ReplaceByItself(h[1..], n);
    }
  }

  lemma FirstPiece(h: string, n: string, p: nat, j: nat, i: nat)
    requires p <= |h| && n != [] && StrStr(h, n, p) == Some(j)
    ensures OccursAt(h[p..j] + n, n, i) ==> i == j - p
  {
    assert h[p..j] + n == h[p..j + |n|];
    OccursInSlice(h, n, p, j + |n|, i);
  }

  lemma LastPiece(h: string, n: string, p: nat, i: nat)
    requires p <= |h| && StrStr(h, n, p) == None
    ensures !OccursAt(h[p..], n, i)
  {
    OccursInSlice(h, n, p, |h|, i);
  }

  /** No piece holds an occurrence, nor does one start in a piece and run into the separator
      after it; so the occurrences are the leftmost ones that do not overlap. */
  lemma {:induction false} PiecesAreLeftmost(h: string, n: string, p: nat, k: nat, i: nat)
    requires p <= |h| && n != [] && k < |Pieces(h, n, p)|
    requires OccursAt(Pieces(h, n, p)[k] + (if k < |Pieces(h, n, p)| - 1 then n else []), n, i)
    ensures k < |Pieces(h, n, p)| - 1 && i == |Pieces(h, n, p)[k]|
    decreases k
  {
    hide Join, Count, Replace, OccursAt;
    var pieces := Pieces(h, n, p);
    assert pieces[k] + [] == pieces[k];
    if StrStr(h, n, p) == None {
      LastPiece(h, n, p, i);
    }
    match StrStr(h, n, p)
    case None =>
    case Some(j) =>
      var rest := Pieces(h, n, j + |n|);
      assert pieces == [h[p..j]] + rest;
      if k == 0 {
        FirstPiece(h, n, p, j, i);
      } else {
        assert pieces[k] == rest[k - 1];
        PiecesAreLeftmost(h, n, j + |n|, k - 1, i);
      }
  }

  /** One round of the first pass. */
  lemma {:induction false} SizeFrom(h: string, n: string, r: string, p: nat)
    requires p <= |h| && n != []
    ensures match StrStr(h, n, p)
      case None => |Replace(h[p..], n, r)| == |h| - p
      case Some(i) => |Replace(h[p..], n, r)| == i - p + |r| + |Replace(h[i + |n|..], n, r)|
    decreases |h| - p
  {
    hide OccursAt, Replace;
    ReplaceFrom(h, n, r, p);
    if p == |h| || OccursAt(h, n, p) {
    } else {
      SizeFrom(h, n, r, p + 1);
    }
  }

  lemma Distribute(c: int, d: int)
    ensures (1 + c) * d == d + c * d
  {
  }

  /** The length the sizing pass arrives at is the length of the result. */
  lemma {:induction false} ReplaceLength(h: string, n: string, r: string, p: nat)
    requires p <= |h| && n != []
    ensures |Replace(h[p..], n, r)| == |h| - p + Count(h, n, p) * (|r| - |n|)
    decreases |h| - p
  {
    hide Replace, OccursAt;
    SizeFrom(h, n, r, p);
    match StrStr(h, n, p)
    case None =>
    case Some(i) =>
      ReplaceLength(h, n, r, i + |n|);
      Distribute(Count(h, n, i + |n|), |r| - |n|);
  }

  /** With an empty needle the search always succeeds on the spot, so the sizing pass, which then
      steps on by the needle's length, moves on exactly when the needle is not empty. */
  lemma SizingPassAdvances(h: string, n: string, p: nat)
    requires p <= |h|
    ensures (StrStr(h, n, p).Some? && StrStr(h, n, p).value + |n| == p) <==> n == []
  {
    assert OccursAt(h, [], p);
  }

  // ---- The C code ----

  /** The first `size` characters of the string, with zeros where it is shorter. */
  function Padded(s: string, size: nat): (r: string)
    ensures |r| == size
  {
    seq(size, i requires 0 <= i < size => if i < |s| then s[i] else NUL)
  }

  lemma PaddedAt(src: string, size: nat)
    ensures forall i | 0 <= i < size :: Padded(src, size)[i] == if i < |src| then src[i] else NUL
  {
  }

  /** strncpy. */
  method StrNCpy(dest: array<char>, offset: nat, src: string, size: nat)
    requires offset + size <= dest.Length
    modifies dest
    ensures dest[..] == old(dest[..offset]) + Padded(src, size) + old(dest[offset + size..])
  {
    hide Padded;
    ghost var before, copy := dest[..], Padded(src, size);
    PaddedAt(src, size);
    for i := 0 to size
      invariant dest[..] == before[..offset] + copy[..i] + before[offset + i..]
    {
      assert copy[..i + 1] == copy[..i] + [copy[i]];
      dest[offset + i] := if i < |src| then src[i] else NUL;
    }
  }

  /** strlen of the string that starts at `offset` and ends at `end` at the latest. */
  method StrLen(buffer: array<char>, offset: nat, ghost end: nat) returns (len: nat)
    requires offset <= end < buffer.Length && buffer[end] == NUL
    ensures offset + len <= end && buffer[offset + len] == NUL
    ensures forall i | offset <= i < offset + len :: buffer[i] != NUL
  {
    len := 0;
    while buffer[offset + len] != NUL
      invariant offset + len <= end
      invariant forall i | offset <= i < offset + len :: buffer[i] != NUL
      decreases end - len
    {
      len := len + 1;
    }
  }

  /** Copies as much as fits, always terminated and padded with zeros; tells whether all fitted. */
  method StringCopy(dest: array<char>, offset: nat, src: string, destSize: nat) returns (whole: bool)
    requires offset + destSize <= dest.Length && NUL !in src
    modifies dest
    ensures whole <==> |src| < destSize
    ensures dest[..] == old(dest[..offset])
      + (if destSize == 0 then [] else Padded(src, destSize - 1) + [NUL])
      + old(dest[offset + destSize..])
  {
    if destSize >= 1 {
      dest[offset + (destSize - 1)] := NUL;
      StrNCpy(dest, offset, src, destSize - 1);
    } else {
      return false;
    }
    ghost var copy := Padded(src, destSize - 1) + [NUL];
    assert dest[..] == old(dest[..offset]) + copy + old(dest[offset + destSize..]);
    assert dest[..][offset + (destSize - 1)] == NUL;
    var len := StrLen(dest, offset, offset + (destSize - 1));
    ghost var m := if |src| < destSize then |src| else destSize - 1;
    assert dest[..][offset + m] == copy[m] == NUL;
    assert dest[..][offset + len] == copy[len];
    assert forall i | 0 <= i < m :: copy[i] == src[i] && src[i] in src;
    return len == |src|;
  }

  /** Wrapping addition of a possibly negative difference, as `a += x - y` does on size_t. */
  function SizeAdd(a: nat, d: int): (r: nat)
    ensures r == (a + d) % SIZE_LIMIT
  {
    (a + d % SIZE_LIMIT) % SIZE_LIMIT
  }

  lemma WrappedSum(total: int, d: int)
    ensures SizeAdd(total % SIZE_LIMIT, d) == (total + d) % SIZE_LIMIT
  {
  }

  /** First pass: the size of the result, in wrapping size_t arithmetic. */
  method ResultLength(h: string, n: string, r: string) returns (len: nat)
    requires n != [] && |Replace(h, n, r)| + 1 < SIZE_LIMIT
    ensures len == |Replace(h, n, r)| + 1
  {
    hide SizeAdd, Replace, Count, OccursAt;
    len := (|h| + 1) % SIZE_LIMIT;
    var p := 0;
    ghost var total := |h| + 1;
    assert h[0..] == h;
    while true
      invariant p <= |h| && len == total % SIZE_LIMIT
      invariant total - (|h| - p) + |Replace(h[p..], n, r)| == |Replace(h, n, r)| + 1
      decreases |h| - p
    {
      SizeFrom(h, n, r, p);
      var found := StrStr(h, n, p);
      if found == None {
        break;
      }
      WrappedSum(total, |r| - |n|);
      p := found.value;
      p := p + |n|;
      len := SizeAdd(len, |r| - |n|);
      total := total + (|r| - |n|);
    }
    assert total == |Replace(h, n, r)| + 1;
  }

  lemma CopyHead(before: string, r: string, size: nat, after: string)
    requires |r| < size
    requires after == before + (Padded(r, size - 1) + [NUL]) + []
    ensures after[..|before| + |r|] == before + r
  {
  }

  /** The whole of M_StringReplace: the returned buffer holds the replaced string and its
      terminator and nothing else. */
  method StringReplace(h: string, n: string, r: string) returns (result: array<char>)
    requires NUL !in h && NUL !in n && NUL !in r
    requires n != [] && |Replace(h, n, r)| + 1 < SIZE_LIMIT
    ensures fresh(result) && result.Length == |Replace(h, n, r)| + 1
    ensures result[..] == Replace(h, n, r) + [NUL]
  {
    hide Replace, Padded, OccursAt;
    var result_len := ResultLength(h, n, r);
    result := new char[result_len];
    var dst, dst_len, p := 0, result_len, 0;
    assert h[0..] == h;
    while p < |h|
      invariant p <= |h| && 0 <= dst && dst + dst_len == result.Length
      invariant dst_len == |Replace(h[p..], n, r)| + 1
      invariant Replace(h, n, r) == result[..dst] + Replace(h[p..], n, r)
    {
      ghost var before := result[..dst];
      ReplaceFrom(h, n, r, p);
      if n <= h[p..] {
        var whole := StringCopy(result, dst, r, dst_len);
        assert whole;
        CopyHead(before, r, dst_len, result[..]);
        p := p + |n|;
        dst := dst + |r|;
        dst_len := dst_len - |r|;
      } else {
        result[dst] := h[p];
        assert result[..dst + 1] == before + [h[p]];
        dst := dst + 1;
        dst_len := dst_len - 1;
        p := p + 1;
      }
    }
    ReplaceFrom(h, n, r, p);
    assert result[..dst] == Replace(h, n, r);
    result[dst] := NUL;
  }
}
