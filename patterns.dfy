/**
 * First-match scan over a table of (mask, pattern) entries, as both the class
 * classifier and the reserved-address detector perform it
 * (snet/src/ipv4.rs, `Class::from` and `ReservedAddress::try_from`).
 */
module Patterns {
  import opened Wrappers

  /** address carries pattern p under mask m. */
  predicate Matches(address: bv32, m: bv32, p: bv32)
  {
    address & m == p
  }

  /**
   * The first entry of table, in table order, whose pattern the address
   * carries under the entry's mask; None when no entry matches.
   */
  function FirstMatch<T>(address: bv32, table: seq<T>, mask: T -> bv32, pattern: T -> bv32): (r: Option<T>)
    ensures r.None? <==> forall i :: 0 <= i < |table| ==> !Matches(address, mask(table[i]), pattern(table[i]))
    ensures r.Some? ==> (exists i :: 0 <= i < |table| && table[i] == r.value
                           && Matches(address, mask(table[i]), pattern(table[i]))
                           && forall j :: 0 <= j < i ==> !Matches(address, mask(table[j]), pattern(table[j])))
  {
    if table == [] then
      None
    else if Matches(address, mask(table[0]), pattern(table[0])) then
      Some(table[0])
    else
      var r := FirstMatch(address, table[1..], mask, pattern);
      assert forall i :: 1 <= i < |table| ==> table[i] == table[1..][i - 1];
      r
  }

  /** One step of the scan: the head entry is tried before the rest. */
  lemma FirstMatchCons<T>(address: bv32, x: T, rest: seq<T>, mask: T -> bv32, pattern: T -> bv32)
    ensures FirstMatch(address, [x] + rest, mask, pattern)
         == if Matches(address, mask(x), pattern(x)) then Some(x) else FirstMatch(address, rest, mask, pattern)
  {
    assert ([x] + rest)[1..] == rest;
  }
}
