/** Small shared vocabulary: optional values, machine-word types, and the
    splitting of a sequence by a key. */
module Base {
  datatype Option<+T> = None | Some(value: T)

  datatype Result<+T> = Ok(value: T) | Err

  type Byte = x: int | 0 <= x < 0x100
  type U16 = x: int | 0 <= x < 0x1_0000
  type U32 = x: int | 0 <= x < 0x1_0000_0000

  const DSCP_ID_MAX: Byte := 63

  /** An IPv4 address, read as the big-endian number of its four octets. */
  type Ip = U32

  function Get<K, V>(m: map<K, V>, k: K): (r: Option<V>) {
    if k in m then Some(m[k]) else None
  }

  ghost predicate Distinct<T>(s: seq<T>) {
    forall i, j :: 0 <= i < j < |s| ==> s[i] != s[j]
  }

  /** `Instant::duration_since`: zero rather than negative when the clocks are reversed. */
  function Elapsed(now: int, since: int): (d: nat) {
    if now >= since then now - since else 0
  }
}

/** The elements of a sequence that carry a given key, in order.  The kernel's
    rule and route lists are reasoned about one key (one table, or "foreign")
    at a time. */
module Partition {
  import opened Base

  function Part<T(!new), K(==)>(key: T -> K, s: seq<T>, c: K): (p: seq<T>)
    ensures forall x :: x in p <==> x in s && key(x) == c
  {
    if s == [] then []
    else
      var last := s[|s| - 1];
      Part(key, s[..|s| - 1], c) + if key(last) == c then [last] else []
  }

  function Without<T>(s: seq<T>, i: nat): (r: seq<T>)
    requires i < |s|
    ensures |r| == |s| - 1
  {
    s[..i] + s[i + 1..]
  }

  lemma {:induction false} PartAppend<T(!new), K>(key: T -> K, s: seq<T>, x: T, c: K)
    ensures Part(key, s + [x], c) == Part(key, s, c) + if key(x) == c then [x] else []
  {
    assert (s + [x])[..|s|] == s;
  }

  lemma {:induction false} PartConcat<T(!new), K>(key: T -> K, s: seq<T>, u: seq<T>, c: K)
    ensures Part(key, s + u, c) == Part(key, s, c) + Part(key, u, c)
    decreases |u|
  {
    if u == [] {
      assert s + u == s;
    } else {
      var last, rest := u[|u| - 1], u[..|u| - 1];
      assert s + u == (s + rest) + [last] && u == rest + [last];
      PartConcat(key, s, rest, c);
      PartAppend(key, s + rest, last, c);
    }
  }

  lemma {:induction false} SplitAt<T>(s: seq<T>, i: nat)
    requires i < |s|
    ensures s == s[..i] + [s[i]] + s[i + 1..]
  {
  }

  lemma {:induction false} PartInsert<T(!new), K>(key: T -> K, a: seq<T>, x: T, b: seq<T>, c: K)
    ensures Part(key, a + [x] + b, c)
         == Part(key, a, c) + (if key(x) == c then [x] else []) + Part(key, b, c)
  {
    PartConcat(key, a + [x], b, c);
    PartAppend(key, a, x, c);
  }

  lemma {:induction false} PartSplit<T(!new), K>(key: T -> K, s: seq<T>, i: nat, c: K)
    requires i < |s|
    ensures Part(key, s, c)
         == Part(key, s[..i], c) + (if key(s[i]) == c then [s[i]] else []) + Part(key, s[i + 1..], c)
    ensures Part(key, Without(s, i), c) == Part(key, s[..i], c) + Part(key, s[i + 1..], c)
  {
    SplitAt(s, i);
    PartInsert(key, s[..i], s[i], s[i + 1..], c);
    PartConcat(key, s[..i], s[i + 1..], c);
  }

  /** Unlinking one element shortens its own part by one and leaves every other part alone. */
  lemma {:induction false} PartWithout<T(!new), K>(key: T -> K, s: seq<T>, i: nat, c: K)
    requires i < |s|
    ensures key(s[i]) != c ==> Part(key, Without(s, i), c) == Part(key, s, c)
    ensures key(s[i]) == c ==> |Part(key, Without(s, i), c)| == |Part(key, s, c)| - 1
  {
    PartSplit(key, s, i, c);
    if key(s[i]) != c {
      assert Part(key, s[..i], c) + [] == Part(key, s[..i], c);
    }
  }

  lemma {:induction false} PartNone<T(!new), K>(key: T -> K, s: seq<T>, c: K)
    requires forall x :: x in s ==> key(x) != c
    ensures Part(key, s, c) == []
  {
    if s != [] {
      PartNone(key, s[..|s| - 1], c);
    }
  }

  /** Where the head of a part sits. */
  lemma {:induction false} FirstOfPart<T(!new), K>(key: T -> K, s: seq<T>, c: K) returns (i: nat)
    requires Part(key, s, c) != []
    ensures i < |s| && s[i] == Part(key, s, c)[0] && key(s[i]) == c
    ensures forall j :: 0 <= j < i ==> key(s[j]) != c
  {
    var n := |s| - 1;
    var p := Part(key, s[..n], c);
    if p != [] {
      i := FirstOfPart(key, s[..n], c);
    } else {
      i := n;
      forall j | 0 <= j < n ensures key(s[j]) != c {
        assert s[j] in s[..n] && s[j] !in p;
      }
    }
  }

  /** Unlinking the first element of a part that sits first in it pops that part's head. */
  lemma {:induction false} PartWithoutHead<T(!new), K>(key: T -> K, s: seq<T>, i: nat, c: K)
    requires i < |s| && key(s[i]) == c
    requires forall j :: 0 <= j < i ==> key(s[j]) != c
    ensures |Part(key, s, c)| > 0 && Part(key, s, c)[0] == s[i]
    ensures Part(key, Without(s, i), c) == Part(key, s, c)[1..]
  {
    PartSplit(key, s, i, c);
    PartNone(key, s[..i], c);
  }
}
