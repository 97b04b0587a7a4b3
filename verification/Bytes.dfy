/** Copying inside one shared buffer, and string search and comparison, over memory as bytes. */
module Bytes {
  import opened Machine

  type byte = x: int | 0 <= x < 256

  // ---------- Copying ----------

  /** The given bytes written at `dest`; nothing else changes. */
  function Placed(m: seq<byte>, dest: nat, bytes: seq<byte>): (r: seq<byte>)
    requires dest + |bytes| <= |m|
    ensures |r| == |m| && forall j :: 0 <= j < |m| ==> r[j] == if dest <= j < dest + |bytes| then bytes[j - dest] else m[j]
  {
    m[..dest] + bytes + m[dest + |bytes|..]
  }

  /** The source byte that ends up as byte i of a forward copy: when the target starts inside the source,
      the bytes between the two repeat. */
  function Origin(dest: nat, src: nat, i: nat): (r: nat)
    ensures r <= i
    decreases i
  {
    if src < dest && i >= dest - src then Origin(dest, src, i - (dest - src)) else i
  }

  function ForwardCopied(m: seq<byte>, dest: nat, src: nat, n: nat): (r: seq<byte>)
    requires src + n <= |m|
    ensures |r| == n
  {
    seq(n, i requires 0 <= i < n => m[src + Origin(dest, src, i)])
  }

  method Memcpy(mem: array<byte>, dest: nat, src: nat, n: nat)
    requires dest + n <= mem.Length && src + n <= mem.Length
    modifies mem
    ensures mem[..] == Placed(old(mem[..]), dest, ForwardCopied(old(mem[..]), dest, src, n))
  {
    ghost var copied := ForwardCopied(mem[..], dest, src, n);
    for i := 0 to n
      invariant forall j :: 0 <= j < mem.Length ==> mem[j] == if dest <= j < dest + i then copied[j - dest] else old(mem[j])
    {
      assert dest <= src + i < dest + i ==> copied[src + i - dest] == copied[i];
      mem[dest + i] := mem[src + i];
    }
  }

  /** A forward copy gives the original bytes exactly if the target does not start inside the source, or the
      part of the source it would spoil already agrees with what is written there. */
  lemma {:induction false} ForwardCopyExactIff(m: seq<byte>, dest: nat, src: nat, n: nat)
    requires dest + n <= |m| && src + n <= |m|
    ensures ForwardCopied(m, dest, src, n) == m[src..src + n]
      <==> !(src < dest < src + n) || m[src..src + n - (dest - src)] == m[dest..src + n]
  {
    var copied, bytes := ForwardCopied(m, dest, src, n), m[src..src + n];
    if src < dest < src + n {
      var low, high := m[src..src + n - (dest - src)], m[dest..src + n];
      if low == high {
        assert copied == bytes by {
          forall i | 0 <= i < n
            ensures copied[i] == bytes[i]
          {
            Periodic(m, dest, src, n, i);
          }
        }
      }
      if copied == bytes {
        assert low == high by {
          forall i | 0 <= i < |low|
            ensures low[i] == high[i]
          {
            Repeats(m, dest, src, n, i);
            assert copied[i + (dest - src)] == bytes[i + (dest - src)] && copied[i] == bytes[i];
          }
        }
      }
    } else {
      assert forall i :: 0 <= i < n ==> copied[i] == bytes[i];
    }
  }

  lemma Repeats(m: seq<byte>, dest: nat, src: nat, n: nat, i: nat)
    requires src < dest && i + (dest - src) < n && src + n <= |m|
    ensures ForwardCopied(m, dest, src, n)[i + (dest - src)] == ForwardCopied(m, dest, src, n)[i]
  {
  }

  lemma {:induction false} Periodic(m: seq<byte>, dest: nat, src: nat, n: nat, i: nat)
    requires dest + n <= |m| && src < dest < src + n && i < n
    requires m[src..src + n - (dest - src)] == m[dest..src + n]
    ensures m[src + Origin(dest, src, i)] == m[src + i]
    decreases i
  {
    var k := dest - src;
    if i >= k {
      Periodic(m, dest, src, n, i - k);
      assert m[src..src + n - k][i - k] == m[src + i - k] && m[dest..src + n][i - k] == m[src + i];
    }
  }

  /** Whatever the overlap, the target gets the bytes the source had, and no other byte changes. */
  method Memmove(mem: array<byte>, dest: nat, src: nat, n: nat)
    requires dest + n <= mem.Length && src + n <= mem.Length
    modifies mem
    ensures mem[..] == Placed(old(mem[..]), dest, old(mem[src..src + n]))
  {
    if dest < src {
      ForwardCopyExactIff(mem[..], dest, src, n);
      assert mem[..][src..src + n] == mem[src..src + n];
      Memcpy(mem, dest, src, n);
    } else if dest > src {
      for i := n downto 0
        invariant forall j :: 0 <= j < mem.Length ==> mem[j] == if dest + i <= j < dest + n then old(mem[src + (j - dest)]) else old(mem[j])
      {
        mem[dest + i] := mem[src + i];
      }
    }
  }

  // ---------- Nul-terminated strings ----------

  predicate Terminated(m: seq<byte>, p: nat) {
    exists q :: p <= q < |m| && m[q] == 0
  }

  /** The bytes of the string at p, up to its terminator. */
  function Text(m: seq<byte>, p: nat): (r: seq<byte>)
    requires Terminated(m, p)
    ensures p + |r| < |m|
    decreases |m| - p
  {
    if m[p] == 0 then []
    else
      assert Terminated(m, p + 1);
      [m[p]] + Text(m, p + 1)
  }

  /** The text is what lies before the first nul byte. */
  lemma {:induction false} TextIs(m: seq<byte>, p: nat)
    requires Terminated(m, p)
    ensures var t := Text(m, p); t == m[p..p + |t|] && m[p + |t|] == 0 && 0 !in t
    decreases |m| - p
  {
    if m[p] != 0 {
      Advance(m, p);
      TextIs(m, p + 1);
    }
  }

  lemma Advance(m: seq<byte>, p: nat)
    requires Terminated(m, p)
    ensures p < |m|
    ensures m[p] == 0 ==> Text(m, p) == []
    ensures m[p] != 0 ==> Terminated(m, p + 1) && Text(m, p) == [m[p]] + Text(m, p + 1)
    ensures m[p] != 0 ==> Text(m, p)[1..] == Text(m, p + 1)
  {
  }

  /** The needle is found k bytes into the haystack. */
  predicate OccursAt(h: seq<byte>, n: seq<byte>, k: nat) {
    k <= |h| && n <= h[k..]
  }

  /** The inner loop of `strstr`: is the needle a prefix of the text at h? */
  method MatchesHere(m: seq<byte>, h: nat, needle: nat) returns (matches: bool)
    requires Terminated(m, h) && Terminated(m, needle)
    ensures matches <==> Text(m, needle) <= Text(m, h)
  {
    hide Terminated, Text;
    var hp: nat, np: nat := h, needle;
    Advance(m, hp);
    Advance(m, np);
    while m[hp] != 0 && m[np] != 0 && m[hp] == m[np]
      invariant hp < |m| && np < |m| && Terminated(m, hp) && Terminated(m, np)
      invariant Text(m, needle) <= Text(m, h) <==> Text(m, np) <= Text(m, hp)
      decreases |m| - hp
    {
      Advance(m, hp);
      Advance(m, np);
      PrefixStep(m[hp], Text(m, np + 1), Text(m, hp + 1));
      hp, np := hp + 1, np + 1;
      Advance(m, hp);
      Advance(m, np);
    }
    Advance(m, hp);
    Advance(m, np);
    matches := m[np] == 0;
    PrefixEnds(Text(m, np), Text(m, hp));
  }

  lemma PrefixEnds(a: seq<byte>, b: seq<byte>)
    ensures a == [] ==> a <= b
    ensures a != [] && (b == [] || a[0] != b[0]) ==> !(a <= b)
  {
  }

  lemma PrefixStep(x: byte, a: seq<byte>, b: seq<byte>)
    ensures [x] + a <= [x] + b <==> a <= b
  {
    assert ([x] + a)[1..] == a && ([x] + b)[1..] == b;
    if a <= b {
      assert [x] + b == [x] + a + b[|a|..];
    }
    if [x] + a <= [x] + b {
      assert b == a + ([x] + b)[1 + |a|..];
    }
  }

  ghost predicate Occurs(h: seq<byte>, n: seq<byte>) {
    exists k: nat :: OccursAt(h, n, k)
  }

  /** The needle is not found at any of the first `end` bytes. */
  predicate NoneBefore(h: seq<byte>, n: seq<byte>, end: nat) {
    forall k :: 0 <= k < end ==> !OccursAt(h, n, k)
  }

  /** The first occurrence of the needle, exactly when there is one. */
  method Strstr(m: seq<byte>, haystack: nat, needle: nat) returns (r: Option<nat>)
    requires Terminated(m, haystack) && Terminated(m, needle)
    ensures r.Some? <==> Occurs(Text(m, haystack), Text(m, needle))
    ensures r.Some? ==> r.value >= haystack && OccursAt(Text(m, haystack), Text(m, needle), r.value - haystack)
    ensures r.Some? ==> NoneBefore(Text(m, haystack), Text(m, needle), r.value - haystack)
  {
    hide Terminated, Text, OccursAt, NoneBefore, Occurs;
    ghost var ht, nt := Text(m, haystack), Text(m, needle);
    Advance(m, needle);
    Advance(m, haystack);
    SearchStarts(ht, nt);
    if m[needle] == 0 {
      return Some(haystack);
    }
    var h: nat := haystack;
    while m[h] != 0
      invariant haystack <= h < |m| && Terminated(m, h)
      invariant IsSuffix(Text(m, h), ht, h - haystack) && NoneBefore(ht, nt, h - haystack)
      decreases |m| - h
    {
      var matches := MatchesHere(m, h, needle);
      Advance(m, h);
      SearchHere(ht, nt, h - haystack, Text(m, h));
      if matches {
        return Some(h);
      }
      h := h + 1;
      Advance(m, h);
    }
    Advance(m, h);
    SearchEnds(ht, nt, h - haystack);
    return None;
  }

  predicate IsSuffix(t: seq<byte>, h: seq<byte>, k: nat) {
    k <= |h| && t == h[k..]
  }

  lemma SearchStarts(h: seq<byte>, n: seq<byte>)
    ensures IsSuffix(h, h, 0) && NoneBefore(h, n, 0) && (n == [] ==> OccursAt(h, n, 0) && Occurs(h, n))
  {
    if n == [] {
      assert OccursAt(h, n, 0);
    }
  }

  lemma SearchHere(h: seq<byte>, n: seq<byte>, k: nat, t: seq<byte>)
    requires IsSuffix(t, h, k) && NoneBefore(h, n, k) && t != []
    ensures n <= t ==> OccursAt(h, n, k) && Occurs(h, n)
    ensures !(n <= t) ==> NoneBefore(h, n, k + 1)
    ensures IsSuffix(t[1..], h, k + 1)
  {
    assert OccursAt(h, n, k) <==> n <= t;
  }

  /** Past the last byte there is no room for a needle. */
  lemma SearchEnds(h: seq<byte>, n: seq<byte>, end: nat)
    requires n != [] && IsSuffix([], h, end) && NoneBefore(h, n, end)
    ensures !Occurs(h, n)
  {
    assert |h[end..]| == |h| - end;
  }

  /** Dictionary order on byte strings. */
  predicate Precedes(a: seq<byte>, b: seq<byte>) {
    if b == [] then false
    else if a == [] then true
    else a[0] < b[0] || (a[0] == b[0] && Precedes(a[1..], b[1..]))
  }

  /** a and b agree on the first k bytes, and then a ends or has the smaller byte. */
  ghost predicate SmallerAt(a: seq<byte>, b: seq<byte>, k: nat) {
    k <= |a| && k < |b| && a[..k] == b[..k] && (k < |a| ==> a[k] < b[k])
  }

  /** The first difference decides. */
  lemma {:induction false} PrecedesIff(a: seq<byte>, b: seq<byte>)
    ensures Precedes(a, b) <==> exists k: nat {:trigger SmallerAt(a, b, k)} :: SmallerAt(a, b, k)
  {
    if a != [] && b != [] && a[0] == b[0] {
      PrecedesIff(a[1..], b[1..]);
      if k: nat :| SmallerAt(a, b, k) {
        SmallerFurther(a, b, k);
      }
      if k: nat :| SmallerAt(a[1..], b[1..], k) {
        assert a[..k + 1] == [a[0]] + a[1..][..k] && b[..k + 1] == [b[0]] + b[1..][..k];
        assert SmallerAt(a, b, k + 1);
      }
    } else {
      assert SmallerAt(a, b, 0) <==> Precedes(a, b);
      if k: nat :| SmallerAt(a, b, k) {
        SameStart(a, b, k);
      }
    }
  }

  lemma SameStart(a: seq<byte>, b: seq<byte>, k: nat)
    requires SmallerAt(a, b, k)
    ensures k > 0 ==> a != [] && b != [] && a[0] == b[0]
  {
    assert k > 0 ==> a[..k][0] == b[..k][0];
  }

  lemma SmallerFurther(a: seq<byte>, b: seq<byte>, k: nat)
    requires SmallerAt(a, b, k) && a != [] && b != [] && a[0] == b[0]
    ensures k > 0 && SmallerAt(a[1..], b[1..], k - 1)
  {
    assert a[1..][..k - 1] == a[..k][1..] && b[1..][..k - 1] == b[..k][1..];
  }

  /** The sign of the result is the dictionary order of the two texts, zero exactly if they are equal. */
  method Strcmp(m: seq<byte>, s1: nat, s2: nat) returns (r: int)
    requires Terminated(m, s1) && Terminated(m, s2)
    ensures r == 0 <==> Text(m, s1) == Text(m, s2)
    ensures r < 0 <==> Precedes(Text(m, s1), Text(m, s2))
    ensures r > 0 <==> Precedes(Text(m, s2), Text(m, s1))
  {
    hide Terminated, Text;
    var p: nat, q: nat := s1, s2;
    Advance(m, p);
    Advance(m, q);
    while m[p] != 0 && m[p] == m[q]
      invariant p < |m| && q < |m| && Terminated(m, p) && Terminated(m, q)
      invariant Text(m, s1) == Text(m, s2) <==> Text(m, p) == Text(m, q)
      invariant Precedes(Text(m, s1), Text(m, s2)) <==> Precedes(Text(m, p), Text(m, q))
      invariant Precedes(Text(m, s2), Text(m, s1)) <==> Precedes(Text(m, q), Text(m, p))
      decreases |m| - p
    {
      Advance(m, p);
      Advance(m, q);
      assert Text(m, p)[1..] == Text(m, p + 1) && Text(m, q)[1..] == Text(m, q + 1);
      p, q := p + 1, q + 1;
      Advance(m, p);
      Advance(m, q);
    }
    Advance(m, p);
    Advance(m, q);
    r := (m[p] as int) - (m[q] as int);
  }
}
