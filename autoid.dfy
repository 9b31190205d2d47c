/** The per-prefix id generator (`useAutoId`): each call bumps the counter of
    its prefix and returns the prefix, a dash and the new count. */
module AutoId {

  /** The decimal digit of `d`. */
  function Digit(d: nat): char
    requires d < 10
  {
    "0123456789"[d]
  }

  /** The decimal numeral of `n`, as a template literal prints it. */
  function Decimal(n: nat): (s: string)
    ensures s != []
    ensures forall i :: 0 <= i < |s| ==> '0' <= s[i] <= '9'
    ensures |s| == 1 <==> n < 10
  {
    if n < 10 then [Digit(n)] else Decimal(n / 10) + [Digit(n % 10)]
  }

  lemma DigitInjective(a: nat, b: nat)
    requires a < 10 && b < 10 && Digit(a) == Digit(b)
    ensures a == b
  {
  }

  /** Different counts print differently. */
  lemma {:induction false} DecimalInjective(a: nat, b: nat)
    requires Decimal(a) == Decimal(b)
    ensures a == b
  {
    var s := Decimal(a);
    if a >= 10 && b >= 10 {
      assert s[|s| - 1] == Digit(a % 10) && s[|s| - 1] == Digit(b % 10);
      DigitInjective(a % 10, b % 10);
      assert Decimal(a / 10) == s[..|s| - 1] == Decimal(b / 10);
      DecimalInjective(a / 10, b / 10);
    } else if a < 10 && b < 10 {
      DigitInjective(a, b);
    }
  }

  /** The id for the `count`-th call with `prefix`. */
  function Format(prefix: string, count: nat): string
  {
    prefix + "-" + Decimal(count)
  }

  /** An id tells its prefix and count apart: the dash before the digits is
      its last dash, because digits contain none. */
  lemma FormatInjective(p: string, a: nat, q: string, b: nat)
    requires Format(p, a) == Format(q, b)
    ensures p == q && a == b
  {
    var s := Format(p, a);
    LastDash(p, a);
    LastDash(q, b);
    assert |p| == |q|;
    assert p == s[..|p|] == q;
    assert Decimal(a) == s[|p| + 1..] == Decimal(b);
    DecimalInjective(a, b);
  }

  /** The dash after the prefix is the last dash of an id. */
  lemma LastDash(p: string, n: nat)
    ensures Format(p, n)[|p|] == '-'
    ensures forall i :: |p| < i < |Format(p, n)| ==> Format(p, n)[i] != '-'
  {
    var s, d := Format(p, n), Decimal(n);
    forall i | |p| < i < |s| ensures s[i] != '-' {
      assert s[i] == d[i - |p| - 1];
    }
  }

  class IdGenerator {
    /** The `counter` record: how many ids each prefix has had. */
    var counter: map<string, nat>
    /** Every id handed out so far. */
    ghost var issued: set<string>

    /** Every issued id is some prefix's count, up to that prefix's counter. */
    ghost predicate Valid()
      reads this
    {
      forall id :: id in issued ==>
        exists p, k :: id == Format(p, k) && p in counter && 1 <= k <= counter[p]
    }

    /** A new generator: every counter at zero, no ids issued. */
    constructor()
      ensures counter == map[] && issued == {}
      ensures Valid()
    {
      counter := map[];
      issued := {};
    }

    /** The count of `prefix` so far, 0 for a prefix never seen. */
    function Count(prefix: string): nat
      reads this
    {
      if prefix in counter then counter[prefix] else 0
    }

    /** `generateId(prefix)`: bumps the prefix's counter and returns the id
      for the new count, which no earlier call has returned. */
    method GenerateId(prefix: string) returns (id: string)
      requires Valid()
      modifies this
      ensures counter == old(counter)[prefix := old(Count(prefix)) + 1]
      ensures id == Format(prefix, counter[prefix])
      ensures id !in old(issued)
      ensures issued == old(issued) + {id}
      ensures Valid()
    {
      var next := Count(prefix) + 1;
      counter := counter[prefix := next];
      id := prefix + "-" + Decimal(next);
      forall earlier | earlier in old(issued) ensures earlier != id {
        var p, k :| earlier == Format(p, k) && p in old(counter) && 1 <= k <= old(counter)[p];
        if earlier == id {
          FormatInjective(p, k, prefix, next);
          assert false;
        }
      }
      issued := issued + {id};
      forall x | x in issued ensures exists p, k :: x == Format(p, k) && p in counter && 1 <= k <= counter[p] {
        if x == id {
          assert x == Format(prefix, next);
        } else {
          var p, k :| x == Format(p, k) && p in old(counter) && 1 <= k <= old(counter)[p];
          assert x == Format(p, k) && p in counter && 1 <= k <= counter[p];
        }
      }
    }
  }
}
