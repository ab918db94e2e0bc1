/** Arrays that grow in fixed steps: the element count rounded up to a multiple of the step. */
module GrownArray {

  /** Unused places of an array grown in fixed steps. */
  function Slack(n: nat, growth: nat): (r: nat)
    requires growth > 0
    ensures r < growth
  {
    if n % growth == 0 then 0 else growth - n % growth
  }

  /** The length is the least multiple of the step that has room for the elements. */
  lemma SlackIsLeast(n: nat, growth: nat)
    requires growth > 0
    ensures (n + Slack(n, growth)) % growth == 0 && Slack(n, growth) < growth
  {
    var q, r := n / growth, n % growth;
    assert n == q * growth + r;
    if r == 0 {
    } else {
      assert n + Slack(n, growth) == (q + 1) * growth + 0;
      RemainderOf(n + Slack(n, growth), q + 1, 0, growth);
    }
  }

  lemma SlackNext(n: nat, growth: nat)
    requires growth > 0
    ensures Slack(n + 1, growth) == if n % growth == 0 then growth - 1 else Slack(n, growth) - 1
  {
    var q, r := n / growth, n % growth;
    assert n == q * growth + r;
    if r + 1 == growth {
      assert n + 1 == (q + 1) * growth;
      RemainderOf(n + 1, q + 1, 0, growth);
    } else {
      RemainderOf(n + 1, q, r + 1, growth);
    }
  }

  lemma RemainderOf(n: nat, q: nat, r: nat, growth: nat)
    requires r < growth && n == q * growth + r
    ensures n % growth == r
  {
    var d := n / growth - q;
    assert n == (n / growth) * growth + n % growth;
    assert d * growth == r - n % growth;
    ScaleSign(d, growth);
  }

  lemma ScaleSign(d: int, growth: nat)
    ensures d >= 1 ==> d * growth >= growth
    ensures d <= -1 ==> d * growth + growth <= 0
  {
    if d >= 1 {
      assert (d - 1) * growth >= 0;
    } else if d <= -1 {
      assert (-1 - d) * growth >= 0;
    }
  }

  /** An array that has room for n elements has room for fewer. */
  lemma {:induction false} CapacityMonotone(m: nat, n: nat, growth: nat)
    requires growth > 0 && m <= n
    ensures m + Slack(m, growth) <= n + Slack(n, growth)
    decreases n
  {
    if m < n {
      CapacityMonotone(m, n - 1, growth);
      SlackNext(n - 1, growth);
    }
  }

  /** Growing the array just when the count is a multiple of the step leaves room for one more. */
  lemma RoomForOne(n: nat, growth: nat, capacity: nat)
    requires growth > 0
    requires if n % growth == 0 then capacity == n + growth else n + Slack(n, growth) <= capacity
    ensures n < capacity && n + 1 + Slack(n + 1, growth) <= capacity
  {
    SlackNext(n, growth);
  }
}
