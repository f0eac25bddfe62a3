/** The "Print time" option: the root's total worked seconds split into
    hours, minutes and seconds with Go's int64 division. */
module Report {
  import opened Stats

  /** Go's `/`: the quotient truncated toward zero. */
  function GoDiv(a: int, b: int): (q: int)
    requires b > 0
    // rounds toward zero: the quotient never overshoots a in magnitude
    ensures a >= 0 ==> 0 <= q * b <= a < q * b + b
    ensures a < 0 ==> q * b - b < a <= q * b <= 0
  {
    if a >= 0 then
      DivBounds(a, b);
      a / b
    else
      DivBounds(-a, b);
      NegTimes((-a) / b, b);
      -((-a) / b)
  }

  lemma DivBounds(n: nat, b: int)
    requires b > 0
    ensures 0 <= (n / b) * b <= n < (n / b) * b + b
  {
  }

  lemma NegTimes(n: int, b: int)
    ensures (-n) * b == -(n * b)
  {
  }

  /** Go's `%`: the remainder that goes with GoDiv, carrying the sign of `a`. */
  function GoMod(a: int, b: int): (r: int)
    requires b > 0
    ensures a == GoDiv(a, b) * b + r
    ensures a >= 0 ==> 0 <= r < b
    ensures a < 0 ==> -b < r <= 0
  {
    a - GoDiv(a, b) * b
  }

  datatype Hms = Hms(hours: int, minutes: int, seconds: int)

  /** The three numbers printed for a total of `t` seconds. */
  function Split(t: int): (r: Hms)
    // the parts add back up to the total
    ensures r.hours * 3600 + r.minutes * 60 + r.seconds == t
    // for a non-negative total, minutes and seconds are in [0, 60)
    ensures t >= 0 ==> r.hours >= 0 && 0 <= r.minutes < 60 && 0 <= r.seconds < 60
    // for a negative total every part is non-positive
    ensures t < 0 ==> r.hours <= 0 && -60 < r.minutes <= 0 && -60 < r.seconds <= 0
  {
    var h := GoDiv(GoDiv(t, 60), 60);
    var m := GoMod(GoDiv(t, 60), 60);
    var s := GoMod(t, 60);
    assert GoDiv(t, 60) == h * 60 + m;
    Hms(h, m, s)
  }

  /** What the menu prints: the split of the root record's total, or nothing
      when no pass has recorded the root yet. */
  function TimeReport(stats: Store): (r: Option<Hms>)
    ensures r.Some? <==> "." in stats
    ensures r.Some? ==> r.value.hours * 3600 + r.value.minutes * 60 + r.value.seconds == stats["."].totalWorked
    // for a non-negative total: whole hours, then minutes and seconds in [0, 60)
    ensures r.Some? && stats["."].totalWorked >= 0 ==>
              r.value.hours >= 0 && 0 <= r.value.minutes < 60 && 0 <= r.value.seconds < 60
    // for a negative total Go's truncating division makes every part non-positive
    ensures r.Some? && stats["."].totalWorked < 0 ==>
              r.value.hours <= 0 && -60 < r.value.minutes <= 0 && -60 < r.value.seconds <= 0
  {
    if "." in stats then Some(Split(stats["."].totalWorked)) else None
  }
}
