/** Identifiers, error kinds, 32-bit counters and the text predicates shared by the whole model. */
module Common {

  /** A Guid. `Empty` is Guid.Empty; every `Guid(n)` is a distinct non-empty identifier. */
  datatype Id = Empty | Guid(n: nat)

  datatype Option<+T> = None | Some(value: T)

  /** The exceptions that reach a repository's or an entity's caller. */
  datatype Error =
    | KeyNotFound       // KeyNotFoundException: an update of an id that is not stored
    | InvalidOperation  // InvalidOperationException: a rejected save or delete, wrapped by the repository
    | DbUpdate          // DbUpdateException: a rejected update, which the repository does not catch
    | Argument          // ArgumentException: blank text

  /** The result of an operation that returns nothing but may throw. */
  datatype Outcome = Done | Fail(error: Error)

  // ---------------------------------------------------------------------------------------------
  // C# `int`
  // ---------------------------------------------------------------------------------------------

  const MinInt32: int := -0x8000_0000
  const MaxInt32: int := 0x7FFF_FFFF

  newtype int32 = x: int | -0x8000_0000 <= x < 0x8000_0000

  /** `x++` on a C# `int` in an unchecked context: int.MaxValue wraps round to int.MinValue. */
  function Inc32(x: int32): (r: int32)
    ensures r as int == (x as int - MinInt32 + 1) % 0x1_0000_0000 + MinInt32
  {
    if x as int == MaxInt32 then MinInt32 as int32 else x + 1
  }

  /** The value after `n` successive `x++`. */
  function IncTimes(x: int32, n: nat): int32 {
    if n == 0 then x else Inc32(IncTimes(x, n - 1))
  }

  /** An increment adds exactly one unless the counter is at int.MaxValue, where it wraps. */
  lemma IncrementAddsOne(x: int32)
    ensures x as int < MaxInt32 ==> Inc32(x) as int == x as int + 1
    ensures x as int == MaxInt32 ==> Inc32(x) as int == MinInt32
    ensures Inc32(x) < x <==> x as int == MaxInt32
  {
  }

  /** `n` increments add exactly `n` as long as the counter stays below int.MaxValue. */
  lemma {:induction false} IncTimesAdds(x: int32, n: nat)
    requires x as int + n <= MaxInt32
    ensures IncTimes(x, n) as int == x as int + n
  {
    if n > 0 {
      IncTimesAdds(x, n - 1);
    }
  }

  /** Below int.MaxValue a counter never decreases: more increments give a value at least as large. */
  lemma {:induction false} IncTimesMonotone(x: int32, m: nat, n: nat)
    requires m <= n && x as int + n <= MaxInt32
    ensures IncTimes(x, m) <= IncTimes(x, n)
  {
    IncTimesAdds(x, m);
    IncTimesAdds(x, n);
  }

  // ---------------------------------------------------------------------------------------------
  // Text
  // ---------------------------------------------------------------------------------------------

  /** char.IsWhiteSpace: the characters Unicode lists as White_Space. */
  predicate IsWhiteSpace(c: char): (b: bool)
    ensures c <= '\U{7F}' ==> (b <==> c == ' ' || '\t' <= c <= '\r')
    ensures b ==> !('0' <= c <= '9' || 'A' <= c <= 'Z' || 'a' <= c <= 'z')
  {
    || c == ' '
    || ('\t' <= c <= '\r')
    || c == '\U{85}' || c == '\U{A0}' || c == '\U{1680}'
    || ('\U{2000}' <= c <= '\U{200A}')
    || c == '\U{2028}' || c == '\U{2029}' || c == '\U{202F}' || c == '\U{205F}' || c == '\U{3000}'
  }

  /** string.IsNullOrWhiteSpace for a non-null string: empty, or white space only. */
  predicate IsNullOrWhiteSpace(s: string): (b: bool)
    ensures b <==> TrimStart(s) == []
  {
    TrimStartEmpty(s);
    forall i :: 0 <= i < |s| ==> IsWhiteSpace(s[i])
  }

  /** string.TrimStart(): the string without its leading white space. */
  function TrimStart(s: string): (r: string)
    ensures |r| <= |s| && r == s[|s| - |r|..]
    ensures r != [] ==> !IsWhiteSpace(r[0])
  {
    if s != [] && IsWhiteSpace(s[0]) then TrimStart(s[1..]) else s
  }

  /** Trimming leaves nothing exactly when every character is white space. */
  lemma {:induction false} TrimStartEmpty(s: string)
    ensures TrimStart(s) == [] <==> forall i :: 0 <= i < |s| ==> IsWhiteSpace(s[i])
  {
    if s != [] && IsWhiteSpace(s[0]) {
      TrimStartEmpty(s[1..]);
      assert forall i :: 1 <= i < |s| ==> s[i] == s[1..][i - 1];
    }
  }

  /** Lower-casing of one character, on the ASCII letters. */
  function ToLowerChar(c: char): char {
    if 'A' <= c <= 'Z' then (c as int + 32) as char else c
  }

  /** string.ToLower, on the ASCII letters. */
  function ToLower(s: string): (r: string)
    ensures |r| == |s|
    ensures forall i :: 0 <= i < |s| ==> r[i] == ToLowerChar(s[i])
  {
    if s == [] then [] else [ToLowerChar(s[0])] + ToLower(s[1..])
  }

  /** Case-insensitive string equality: both sides lower-cased, then compared. */
  predicate EqualsIgnoreCase(a: string, b: string): (r: bool)
    ensures r <==> |a| == |b| && forall i :: 0 <= i < |a| ==> ToLowerChar(a[i]) == ToLowerChar(b[i])
  {
    ToLower(a) == ToLower(b)
  }

  // ---------------------------------------------------------------------------------------------
  // Fresh identifiers
  // ---------------------------------------------------------------------------------------------

  /** A number above that of every non-empty id in `ids`. */
  ghost function Bound(ids: set<Id>): (b: nat)
    ensures forall id :: id in ids && id.Guid? ==> id.n < b
    decreases ids
  {
    if ids == {} then 0
    else
      var x :| x in ids;
      var b := Bound(ids - {x});
      if x.Guid? && x.n >= b then x.n + 1 else b
  }

  /** Guid.NewGuid() can always produce a non-empty id that is not yet in use. */
  lemma FreshIdExists(used: set<Id>)
    ensures exists id :: id != Empty && id !in used
  {
    var id := Guid(Bound(used));
    assert id != Empty && id !in used;
  }
}
