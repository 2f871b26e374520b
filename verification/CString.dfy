/** C strings in memory: the string a NUL-terminated run of characters denotes, and the
    library calls the session code makes on such memory, each as a loop over an array. */
module CString {
  const NUL: char := '\0'

  datatype Option<+T> = None | Some(value: T)

  /** The position of the first NUL at or behind `from`, or the end of the memory. */
  function FirstNul(m: seq<char>, from: nat): (n: nat)
    requires from <= |m|
    ensures from <= n <= |m|
    ensures forall j :: from <= j < n ==> m[j] != NUL
    ensures n < |m| ==> m[n] == NUL
    decreases |m| - from
  {
    if from == |m| || m[from] == NUL then from else FirstNul(m, from + 1)
  }

  /** The C string stored in memory `m`: everything before the first NUL. */
  function Str(m: seq<char>): (s: string)
    ensures s <= m && NUL !in s
    ensures |s| < |m| ==> m[|s|] == NUL
  {
    m[..FirstNul(m, 0)]
  }

  /** `m` holds a C string: there is a NUL behind its text. */
  predicate Terminated(m: seq<char>) {
    |Str(m)| < |m|
  }

  /** The first NUL decides the string: whatever follows it is invisible. */
  lemma StrEnds(m: seq<char>, n: nat)
    requires n <= |m| && NUL !in m[..n]
    requires n < |m| ==> m[n] == NUL
    ensures Str(m) == m[..n]
  {
    var k := FirstNul(m, 0);
    assert forall j :: 0 <= j < n ==> m[j] in m[..n];
    assert k == n;
  }

  /** Text followed by a NUL is the string of the memory, whatever comes behind. */
  lemma StrOfText(s: string, rest: seq<char>)
    requires NUL !in s
    ensures Terminated(s + [NUL] + rest) && Str(s + [NUL] + rest) == s
  {
    var m := s + [NUL] + rest;
    assert m[..|s|] == s;
    StrEnds(m, |s|);
  }

  /** The string stored from an offset on is the matching suffix of the whole string. */
  lemma StrSuffix(m: seq<char>, off: nat)
    requires Terminated(m) && off <= |Str(m)|
    ensures Terminated(m[off..]) && Str(m[off..]) == Str(m)[off..]
  {
    var n := |Str(m)| - off;
    assert m[off..][n] == NUL;
    assert m[off..][..n] == Str(m)[off..];
    StrEnds(m[off..], n);
  }

  /** Cleared memory that receives `bytes` holds exactly the text of `bytes`. */
  lemma ReceivedText(m: seq<char>, bytes: seq<char>)
    requires |bytes| < |m| && bytes <= m && m[|bytes|] == NUL
    ensures Terminated(m) && Str(m) == Str(bytes)
  {
    var n := |Str(bytes)|;
    assert m[..|bytes|] == bytes;
    assert m[..n] == bytes[..n];
    StrEnds(m, n);
  }

  /** What recv delivers is `text` up to its first NUL; what it carries behind is not looked at. */
  predicate Carries(chunk: seq<char>, text: string) {
    && 1 <= |chunk| <= 124 && text <= chunk && NUL !in text
    && (|text| < |chunk| ==> chunk[|text|] == '\0')
  }

  lemma Carried(chunk: seq<char>, text: string)
    requires Carries(chunk, text)
    ensures Str(chunk) == text
  {
    assert chunk[..|text|] == text;
    StrEnds(chunk, |text|);
  }

  /** `sub` stands at position `k` of `s`. */
  predicate OccursAt(s: string, sub: string, k: nat) {
    k + |sub| <= |s| && s[k..k + |sub|] == sub
  }

  /** What strncpy_s leaves in a destination of `cap` characters. */
  function Bounded(s: string, count: nat, cap: nat): string {
    if count < cap then s[..if count < |s| then count else |s|]
    else if |s| < cap then s
    else ""
  }

  /** Storing a whole string: kept when it fits with its terminator, otherwise replaced by the empty string. */
  function Fit(s: string, cap: nat): string {
    if |s| < cap then s else ""
  }

  lemma BoundedWhole(s: string, cap: nat)
    ensures Bounded(s, |s|, cap) == Fit(s, cap)
  {
    assert s[..|s|] == s;
  }

  /** Inside its string a terminated memory shows the string's characters, and NUL right behind them. */
  lemma StringAt(m: seq<char>, k: nat)
    requires Terminated(m) && k <= |Str(m)|
    ensures k < |m| && (m[k] == NUL <==> k == |Str(m)|)
    ensures k < |Str(m)| ==> m[k] == Str(m)[k]
  {
  }

  method StrLen(a: array<char>, off: nat) returns (n: nat)
    requires off <= a.Length && Terminated(a[off..])
    ensures off + n < a.Length && n == |Str(a[off..])|
  {
    n := 0;
    StringAt(a[off..], n);
    while a[off + n] != NUL
      invariant n <= |Str(a[off..])| < a.Length - off
      decreases a.Length - n
    {
      StringAt(a[off..], n);
      n := n + 1;
    }
    StringAt(a[off..], n);
  }

  /** The string stored from `off` on, as a value. */
  method ReadString(a: array<char>, off: nat) returns (s: string)
    requires off <= a.Length && Terminated(a[off..])
    ensures s == Str(a[off..])
  {
    var n := StrLen(a, off);
    s := a[off..off + n];
    assert s == a[off..][..n];
  }

  method StrChr(a: array<char>, c: char) returns (r: Option<nat>)
    requires Terminated(a[..]) && c != NUL
    ensures r.None? ==> c !in Str(a[..])
    ensures r.Some? ==> r.value < |Str(a[..])| && a[r.value] == c && c !in Str(a[..])[..r.value]
  {
    var k := 0;
    StringAt(a[..], k);
    while a[k] != NUL
      invariant k <= |Str(a[..])| < a.Length
      invariant c !in Str(a[..])[..k]
      decreases a.Length - k
    {
      StringAt(a[..], k);
      if a[k] == c {
        return Some(k);
      }
      k := k + 1;
    }
    StringAt(a[..], k);
    return None;
  }

  /** First occurrence of a non-empty literal in the string stored in `a`. */
  method StrInStr(a: array<char>, sub: string) returns (r: Option<nat>)
    requires Terminated(a[..]) && sub != ""
    ensures r.None? ==> forall k: nat :: !OccursAt(Str(a[..]), sub, k)
    ensures r.Some? ==> OccursAt(Str(a[..]), sub, r.value)
    ensures r.Some? ==> forall k: nat :: k < r.value ==> !OccursAt(Str(a[..]), sub, k)
  {
    var n := StrLen(a, 0);
    assert a[0..] == a[..];
    ghost var s := Str(a[..]);
    var k := 0;
    while k + |sub| <= n
      invariant forall i: nat :: i < k ==> !OccursAt(s, sub, i)
    {
      var j := 0;
      while j < |sub| && a[k + j] == sub[j]
        invariant j <= |sub|
        invariant s[k..k + j] == sub[..j]
      {
        assert s[k..k + j + 1] == s[k..k + j] + [s[k + j]];
        assert sub[..j + 1] == sub[..j] + [sub[j]];
        j := j + 1;
      }
      if j == |sub| {
        assert sub[..j] == sub;
        return Some(k);
      }
      assert s[k + j] == s[k..k + |sub|][j];
      k := k + 1;
    }
    return None;
  }

  method StrCmp(a: array<char>, b: array<char>) returns (r: int)
    requires Terminated(a[..]) && Terminated(b[..])
    ensures r == 0 <==> Str(a[..]) == Str(b[..])
  {
    ghost var s, t := Str(a[..]), Str(b[..]);
    var k := 0;
    while a[k] != NUL && a[k] == b[k]
      invariant k <= |s| && k <= |t|
      invariant s[..k] == t[..k]
      decreases a.Length - k
    {
      StringAt(a[..], k);
      StringAt(b[..], k);
      k := k + 1;
    }
    StringAt(a[..], k);
    StringAt(b[..], k);
    if a[k] == b[k] {
      assert s == s[..k] && t == t[..k];
    } else if k < |s| && k < |t| {
      assert s[k] != t[k];
    }
    r := a[k] as int - b[k] as int;
  }

  method MemZero(a: array<char>)
    modifies a
    ensures forall k :: 0 <= k < a.Length ==> a[k] == NUL
  {
    for k := 0 to a.Length
      invariant forall i :: 0 <= i < k ==> a[i] == NUL
    {
      a[k] := NUL;
    }
  }

  /** Writes `text` at `pos`; the rest of `dest` stays as it was. */
  method Put(dest: array<char>, pos: nat, text: string)
    requires pos + |text| <= dest.Length
    modifies dest
    ensures dest[..] == old(dest[..pos]) + text + old(dest[pos + |text|..])
  {
    for k := 0 to |text|
      invariant dest[..] == old(dest[..pos]) + text[..k] + old(dest[pos + k..])
    {
      dest[pos + k] := text[k];
      assert text[..k + 1] == text[..k] + [text[k]];
    }
    assert text[..|text|] == text;
  }

  /** strncpy_s between two distinct buffers: the bounded copy, its terminator, and nothing else. */
  method StrNCpyS(dest: array<char>, src: array<char>, off: nat, count: nat) returns (ok: bool)
    requires dest != src && dest.Length > 0
    requires off <= src.Length && Terminated(src[off..])
    modifies dest
    ensures Terminated(dest[..])
    ensures Str(dest[..]) == Bounded(Str(src[off..]), count, dest.Length)
    ensures ok <==> count < dest.Length || |Str(src[off..])| < dest.Length
    ensures forall k :: |Str(dest[..])| < k < dest.Length ==> dest[k] == old(dest[k])
  {
    ghost var s := Str(src[off..]);
    var limit := if count < dest.Length then count else dest.Length;
    var n := 0;
    while n < limit && src[off + n] != NUL
      invariant n <= limit && n <= |s|
      invariant dest[..] == old(dest[..])
    {
      StringAt(src[off..], n);
      n := n + 1;
    }
    StringAt(src[off..], n);
    if n == dest.Length {
      dest[0] := NUL;
      StrEnds(dest[..], 0);
      return false;
    }
    for k := 0 to n
      invariant dest[..k] == s[..k]
      invariant forall i :: k <= i < dest.Length ==> dest[i] == old(dest[i])
    {
      dest[k] := src[off + k];
      assert src[off + k] == s[k];
    }
    dest[n] := NUL;
    assert dest[..n] == s[..n];
    assert dest[..][n] == NUL;
    StrEnds(dest[..], n);
    ok := true;
  }

  /** sprintf_s of `pre`, a stored string and `post`; -1 and an empty destination when they do not fit. */
  method SprintfS(dest: array<char>, pre: string, src: array<char>, post: string) returns (ret: int)
    requires dest != src && dest.Length > 0 && Terminated(src[..])
    requires NUL !in pre && NUL !in post
    modifies dest
    ensures Terminated(dest[..])
    ensures var text := pre + Str(src[..]) + post;
            if |text| < dest.Length
            then ret == |text| && Str(dest[..]) == text
            else ret == -1 && Str(dest[..]) == ""
  {
    assert src[0..] == src[..];
    var n := StrLen(src, 0);
    ghost var s := Str(src[..]);
    var total := |pre| + n + |post|;
    if total >= dest.Length {
      dest[0] := NUL;
      StrEnds(dest[..], 0);
      return -1;
    }
    assert src[..n] == s;
    Put(dest, 0, pre);
    assert dest[..|pre|] == pre;
    Put(dest, |pre|, src[..n]);
    assert dest[..|pre| + n] == pre + s;
    Put(dest, |pre| + n, post);
    assert dest[..total] == pre + s + post;
    dest[total] := NUL;
    StrEnds(dest[..], total);
    ret := total;
  }

  /** A fresh buffer holding `text` the way a caller hands a string over. */
  method NewString(text: string) returns (a: array<char>)
    ensures fresh(a) && Terminated(a[..]) && Str(a[..]) == Str(text)
  {
    a := new char[|text| + 1](_ => NUL);
    Put(a, 0, text);
    var n := |Str(text)|;
    assert a[..] == text + [NUL];
    assert a[|text|] == NUL;
    assert a[..][..n] == text[..n];
    StrEnds(a[..], n);
  }
}
