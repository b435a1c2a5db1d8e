/**
 * A Ruby value as `YAML.safe_load` hands it to the inventory resolver, and the
 * handful of Ruby core methods the resolver calls on such values: `Hash#[]`,
 * `String#[]`, `Array#[]`, `Integer#[]`, `String#gsub` with a one-character
 * pattern, and `Array#uniq`. Each method answers the way Ruby answers, including
 * the exceptions it raises on a receiver of the wrong kind or on an integer
 * index too wide for a C long.
 */
module RubyValue {

  /** The kinds of value a safely loaded YAML document is made of. A Ruby hash
      keeps its keys in insertion order, so a mapping is an association list. */
  datatype Value =
    | Nil
    | Bool(b: bool)
    | Num(n: int)
    | Str(s: string)
    | List(items: seq<Value>)
    | Map(entries: seq<(string, Value)>)

  /** The exceptions the resolver can raise. */
  datatype Error =
    | Unexpected        // the RuntimeError of root_of_groups ("unexpected inventory result")
    | Bug(node: Value)  // the RuntimeError of resolve_hosts_of, carrying the offending node
    | NoMethod          // NoMethodError: the receiver does not have the method called
    | TypeMismatch      // TypeError: an index of a kind the receiver cannot take
    | OutOfRange        // RangeError: an integer index that does not fit a C long

  /** A computation that either returns a value or raises. */
  datatype Result<T> = Ok(value: T) | Err(error: Error) {
    predicate IsFailure() {
      Err?
    }

    function PropagateFailure<U>(): Result<U>
      requires Err?
    {
      Err(error)
    }

    function Extract(): T
      requires Ok?
    {
      value
    }
  }

  /** The position of key `k` in a hash, or -1 when it is absent; a Ruby hash
      holds each key once, and this finds the first occurrence. */
  function KeyIndex(es: seq<(string, Value)>, k: string): (i: int)
    ensures -1 <= i < |es|
    ensures 0 <= i ==> es[i].0 == k
  {
    if es == [] then -1
    else if es[0].0 == k then 0
    else
      var j := KeyIndex(es[1..], k);
      if j < 0 then -1 else j + 1
  }

  /** KeyIndex answers -1 only for an absent key, and otherwise the first
      position holding it. */
  lemma {:induction false} KeyIndexFirst(es: seq<(string, Value)>, k: string)
    ensures KeyIndex(es, k) < 0 ==> forall j :: 0 <= j < |es| ==> es[j].0 != k
    ensures forall j :: 0 <= j < KeyIndex(es, k) ==> es[j].0 != k
  {
    if es != [] && es[0].0 != k {
      KeyIndexFirst(es[1..], k);
      assert forall j :: 1 <= j < |es| ==> es[j] == es[1..][j - 1];
    }
  }

  /** Inserting an entry under another key anywhere in a hash leaves the
      first entry under `k` where it is found, with its value. */
  lemma KeyIndexInsert(es: seq<(string, Value)>, j: nat, e: (string, Value), k: string)
    requires j <= |es| && e.0 != k && 0 <= KeyIndex(es, k)
    ensures var es' := es[..j] + [e] + es[j..];
            0 <= KeyIndex(es', k) && es'[KeyIndex(es', k)].1 == es[KeyIndex(es, k)].1
  {
    var es' := es[..j] + [e] + es[j..];
    var c := KeyIndex(es, k);
    var c' := if j <= c then c + 1 else c;
    assert forall m :: 0 <= m < j ==> es'[m] == es[m];
    assert forall m :: j < m < |es'| ==> es'[m] == es[m - 1];
    KeyIndexFirst(es, k);
    KeyIndexFirst(es', k);
    assert es'[c'] == es[c];
    assert forall m :: 0 <= m < c' ==> es'[m].0 != k;
  }

  /** `h[k]` for a hash `h` and a string `k`: the value stored under `k`, or nil. */
  function Lookup(es: seq<(string, Value)>, k: string): (v: Value)
    ensures v == Nil || exists i :: 0 <= i < |es| && es[i] == (k, v)
  {
    var i := KeyIndex(es, k);
    if i < 0 then Nil else es[i].1
  }

  /** In a hash with distinct keys, `h[k]` is the value of the entry carrying `k`. */
  lemma LookupFound(es: seq<(string, Value)>, k: string, i: nat)
    requires DistinctKeys(es) && i < |es| && es[i].0 == k
    ensures Lookup(es, k) == es[i].1
  {
    KeyIndexFirst(es, k);
  }

  /** A key carried by no entry reads nil. */
  lemma LookupMissing(es: seq<(string, Value)>, k: string)
    requires k !in KeysOf(es)
    ensures Lookup(es, k) == Nil
  {
    InKeysOf(es, k);
  }

  /** The slot that `h[h.keys[i]]` reads. */
  function SlotOf(es: seq<(string, Value)>, i: nat): (j: nat)
    requires i < |es|
    ensures j < |es| && es[j].0 == es[i].0
  {
    assert es[i].0 == es[i].0;
    KeyIndexFirst(es, es[i].0);
    KeyIndex(es, es[i].0)
  }

  /** `h.keys`: one key per entry, in entry order, and no key twice in a hash
      whose keys are distinct. */
  function KeysOf(es: seq<(string, Value)>): (r: seq<string>)
    ensures |r| == |es| && forall i :: 0 <= i < |es| ==> r[i] == es[i].0
    ensures DistinctKeys(es) ==> NoDups(r)
  {
    seq(|es|, i requires 0 <= i < |es| => es[i].0)
  }

  ghost predicate DistinctKeys(es: seq<(string, Value)>)
  {
    forall i, j :: 0 <= i < j < |es| ==> es[i].0 != es[j].0
  }

  /** Every hash inside `v` holds each key once, as every Ruby hash does. */
  ghost predicate WellFormed(v: Value)
  {
    match v
    case Map(es) => DistinctKeys(es) && forall i :: 0 <= i < |es| ==> WellFormed(es[i].1)
    case List(xs) => forall i :: 0 <= i < |xs| ==> WellFormed(xs[i])
    case _ => true
  }

  /** A string is a key exactly when some entry carries it. */
  lemma InKeysOf(es: seq<(string, Value)>, k: string)
    ensures k in KeysOf(es) <==> exists i :: 0 <= i < |es| && es[i].0 == k
  {
    var ks := KeysOf(es);
    if k in ks {
      var i :| 0 <= i < |ks| && ks[i] == k;
      assert es[i].0 == k;
    }
    if exists i :: 0 <= i < |es| && es[i].0 == k {
      var i :| 0 <= i < |es| && es[i].0 == k;
      assert ks[i] == k;
    }
  }

  /** With distinct keys, the i-th key reads the i-th slot. */
  lemma SlotOfDistinct(es: seq<(string, Value)>, i: nat)
    requires DistinctKeys(es) && i < |es|
    ensures SlotOf(es, i) == i
  {
  }

  /** `k` occurs in `s` starting at position `i`. */
  ghost predicate OccursAt(k: string, s: string, i: int)
  {
    0 <= i <= |s| - |k| && s[i..i + |k|] == k
  }

  /** Whether `k` occurs in `s` as a contiguous piece. */
  function IsSubstring(k: string, s: string): (b: bool)
    ensures b <==> exists i :: OccursAt(k, s, i)
  {
    if k <= s then
      assert OccursAt(k, s, 0);
      true
    else if s == [] then
      false
    else
      var r := IsSubstring(k, s[1..]);
      assert forall i :: 1 <= i ==> (OccursAt(k, s, i) <==> OccursAt(k, s[1..], i - 1));
      assert !OccursAt(k, s, 0);
      if r then
        assert forall i :: OccursAt(k, s[1..], i) ==> OccursAt(k, s, i + 1);
        true
      else
        false
  }

  /** The element position Ruby reads for integer index `n` into something of
      length `len`: negative indices count from the end; out of range is nil. */
  function RubyOffset(len: int, n: int): (r: int)
    requires 0 <= len
    ensures -1 <= r < len
    ensures 0 <= n < len ==> r == n
    ensures -len <= n < 0 ==> r == len + n
    ensures (n >= len || n < -len) ==> r == -1
  {
    if 0 <= n < len then n else if -len <= n < 0 then len + n else -1
  }

  function Pow2(k: nat): (p: nat)
    ensures p >= 1
  {
    if k == 0 then 1 else 2 * Pow2(k - 1)
  }

  /** `n[k]` on an Integer: bit `k` of `n` in two's complement. */
  function Bit(n: int, k: int): (r: int)
    ensures r == 0 || r == 1
    ensures k == 0 ==> r == n % 2
    ensures k < 0 ==> r == 0
  {
    if k < 0 then 0 else (n / Pow2(k)) % 2
  }

  /** -1 is all ones in two's complement: every bit of it is set. */
  lemma BitsOfMinusOne(k: nat)
    ensures Bit(-1, k) == 1
  {
    var p: int := Pow2(k);
    assert -1 == (-1) * p + (p - 1);
    assert -1 / p == -1;
  }

  /** String#[] and Array#[] convert an integer index to a 64-bit C long
      before reading; a wider integer raises RangeError. */
  const LongMin: int := -0x8000_0000_0000_0000
  const LongMax: int := 0x7FFF_FFFF_FFFF_FFFF

  predicate FitsLong(n: int)
  {
    LongMin <= n <= LongMax
  }

  /** `recv[key]`, Ruby's element reference on the kinds of value above. */
  function Index(recv: Value, key: Value): (r: Result<Value>)
    ensures r.Err? <==> recv.Nil? || recv.Bool? || (!recv.Map? && !key.Num? && !(recv.Str? && key.Str?)) ||
                        ((recv.Str? || recv.List?) && key.Num? && !FitsLong(key.n))
    ensures r.Err? ==> (r.error == NoMethod <==> recv.Nil? || recv.Bool?)
    ensures r.Err? ==> (r.error == OutOfRange <==> (recv.Str? || recv.List?) && key.Num? && !FitsLong(key.n))
    ensures r.Err? ==> r.error == NoMethod || r.error == TypeMismatch || r.error == OutOfRange
    ensures recv.Map? && !key.Str? ==> r == Ok(Nil)
  {
    match recv
    case Nil => Err(NoMethod)
    case Bool(_) => Err(NoMethod)
    case Map(es) => Ok(if key.Str? then Lookup(es, key.s) else Nil)
    case Str(s) =>
      (match key
       case Str(k) => Ok(if IsSubstring(k, s) then Str(k) else Nil)
       case Num(n) =>
         if !FitsLong(n) then Err(OutOfRange)
         else
           var j := RubyOffset(|s|, n);
           Ok(if j < 0 then Nil else Str([s[j]]))
       case _ => Err(TypeMismatch))
    case List(xs) =>
      (match key
       case Num(n) =>
         if !FitsLong(n) then Err(OutOfRange)
         else
           var j := RubyOffset(|xs|, n);
           Ok(if j < 0 then Nil else xs[j])
       case _ => Err(TypeMismatch))
    case Num(n) =>
      (match key
       case Num(k) => Ok(Num(Bit(n, k)))
       case _ => Err(TypeMismatch))
  }

  /** `h[k]` on a hash with distinct keys reads the entry carrying `k`, and nil
      when none does. */
  lemma IndexHash(es: seq<(string, Value)>, k: string)
    requires DistinctKeys(es)
    ensures forall i :: 0 <= i < |es| && es[i].0 == k ==> Index(Map(es), Str(k)) == Ok(es[i].1)
    ensures k !in KeysOf(es) ==> Index(Map(es), Str(k)) == Ok(Nil)
  {
    forall i | 0 <= i < |es| && es[i].0 == k
      ensures Index(Map(es), Str(k)) == Ok(es[i].1)
    {
      LookupFound(es, k, i);
    }
    if k !in KeysOf(es) {
      LookupMissing(es, k);
    }
  }

  /** `s[k]` on a string answers `k` itself when it occurs in `s`, and nil
      otherwise. */
  lemma IndexSubstring(s: string, k: string)
    ensures (exists i :: OccursAt(k, s, i)) ==> Index(Str(s), Str(k)) == Ok(Str(k))
    ensures (forall i :: !OccursAt(k, s, i)) ==> Index(Str(s), Str(k)) == Ok(Nil)
  {
  }

  /** An integer index into an array or a string: one that fits a C long
      counts from the front when non-negative, reads the same element as the
      index shifted up by the length when negative, and is nil when out of
      range on either side; a wider one raises RangeError. */
  lemma IndexByPosition(recv: Value, n: int)
    requires recv.List? || recv.Str?
    ensures var len := if recv.List? then |recv.items| else |recv.s|;
            (FitsLong(n) && 0 <= n < len && recv.List? ==> Index(recv, Num(n)) == Ok(recv.items[n])) &&
            (FitsLong(n) && 0 <= n < len && recv.Str? ==> Index(recv, Num(n)) == Ok(Str([recv.s[n]]))) &&
            (FitsLong(n) && FitsLong(n + len) && -len <= n < 0 ==> Index(recv, Num(n)) == Index(recv, Num(n + len))) &&
            (FitsLong(n) && (n >= len || n < -len) ==> Index(recv, Num(n)) == Ok(Nil)) &&
            (!FitsLong(n) ==> Index(recv, Num(n)) == Err(OutOfRange))
  {
  }

  /** `s.gsub(a, b)` for one-character `a` and `b`: every `a` becomes `b`. */
  function ReplaceChar(s: string, a: char, b: char): (r: string)
    ensures |r| == |s|
    ensures forall i :: 0 <= i < |s| ==> r[i] == if s[i] == a then b else s[i]
    ensures a != b ==> a !in r
  {
    if s == [] then [] else [if s[0] == a then b else s[0]] + ReplaceChar(s[1..], a, b)
  }

  /** Replacing one character by another and back is the identity on text that
      held none of the second character to begin with. */
  lemma ReplaceCharRoundTrip(s: string, a: char, b: char)
    requires b !in s
    ensures ReplaceChar(ReplaceChar(s, a, b), b, a) == s
  {
  }

  ghost predicate NoDups<T>(s: seq<T>)
  {
    forall i, j :: 0 <= i < j < |s| ==> s[i] != s[j]
  }

  /** `s.uniq`: the first occurrence of every element, in order. */
  function Uniq(s: seq<string>): (r: seq<string>)
    ensures NoDups(r)
    ensures forall x :: x in r <==> x in s
    ensures |r| <= |s|
  {
    if s == [] then []
    else
      var u := Uniq(s[..|s| - 1]);
      var x := s[|s| - 1];
      assert forall y :: y in s <==> y in s[..|s| - 1] || y == x;
      if x in u then u else u + [x]
  }

  /** `uniq` never reorders or drops what an earlier part already kept: the
      distinct elements of `a` lead the distinct elements of `a + b`. */
  lemma {:induction false} UniqPrefix(a: seq<string>, b: seq<string>)
    ensures Uniq(a) <= Uniq(a + b)
  {
    if b == [] {
      assert a + b == a;
    } else {
      var b' := b[..|b| - 1];
      UniqPrefix(a, b');
      assert (a + b)[..|a + b| - 1] == a + b';
    }
  }

  /** `uniq` leaves a list without duplicates as it is. */
  lemma {:induction false} UniqOfDistinct(a: seq<string>)
    requires NoDups(a)
    ensures Uniq(a) == a
  {
    if a != [] {
      var a' := a[..|a| - 1];
      assert NoDups(a');
      UniqOfDistinct(a');
      assert a[|a| - 1] !in a';
      assert a' + [a[|a| - 1]] == a;
    }
  }

  /** `uniq` of a duplicate-free list followed by elements it already holds is
      that list. */
  lemma UniqAbsorbs(a: seq<string>, b: seq<string>)
    requires NoDups(a) && forall x :: x in b ==> x in a
    ensures Uniq(a + b) == a
  {
    UniqOfDistinct(a);
    UniqPrefix(a, b);
    var u := Uniq(a + b);
    forall i | 0 <= i < |u|
      ensures u[i] in a
    {
      assert u[i] in a + b;
    }
    PrefixOfItsElements(a, u);
  }

  /** A duplicate-free list that starts with `a` and holds nothing outside `a`
      is `a`. */
  lemma PrefixOfItsElements(a: seq<string>, u: seq<string>)
    requires NoDups(u) && a <= u && forall i :: 0 <= i < |u| ==> u[i] in a
    ensures u == a
  {
    if |u| > |a| {
      PastPrefixIsNew(a, u, |a|);
    }
  }

  /** In a duplicate-free list that starts with `a`, what follows `a` is not in `a`. */
  lemma PastPrefixIsNew(a: seq<string>, u: seq<string>, i: nat)
    requires NoDups(u) && a <= u && |a| <= i < |u|
    ensures u[i] !in a
  {
    forall j | 0 <= j < |a|
      ensures a[j] != u[i]
    {
      assert a[j] == u[j];
    }
  }
}
