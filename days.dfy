/**
 * Elapsed whole days between two instants, and the sentence `days_since` replies with.
 * Instants are whole seconds since an arbitrary epoch.
 */
module Days {
  import opened Text

  const SecondsPerDay: int := 86400

  /** chrono's `(now - since).num_days()`: the elapsed seconds divided by the length of a
      day, truncated toward zero, so an instant in the future gives a count at or below
      zero rather than a floor. */
  function DaysBetween(now: int, since: int): (d: int)
    ensures 0 <= now - since ==> 0 <= d && d * SecondsPerDay <= now - since < (d + 1) * SecondsPerDay
    ensures now - since < 0 ==> d <= 0 && (d - 1) * SecondsPerDay < now - since <= d * SecondsPerDay
  {
    var elapsed := now - since;
    if elapsed >= 0 then elapsed / SecondsPerDay else -((-elapsed) / SecondsPerDay)
  }

  /** Truncation is symmetric: swapping the two instants negates the count. Less than a day
      in the future therefore still counts as zero days. */
  lemma DaysBetweenAntisymmetric(now: int, since: int)
    ensures DaysBetween(since, now) == -DaysBetween(now, since)
  {
  }

  /** The unit word: singular exactly for a count of one, so "0 days" and "-1 days". */
  function DayUnit(n: int): (u: string)
    ensures u == "day" <==> n == 1
    ensures u == "days" <==> n != 1
  {
    if n == 1 then "day" else "days"
  }

  /** The reply of `days_since`: "It has been {n} {unit} since {text}." It opens with
      "It has been 1 day " exactly when the count is one. */
  function DaysSinceMessage(n: int, text: string): (m: string)
    ensures StartsWith(m, "It has been 1 day ") <==> n == 1
  {
    OneDayOpening(Decimal(n), DayUnit(n), text);
    DecimalRoundTrip(n);
    assert Decimal(1) == "1";
    assert DecimalValue("1") == 1;
    "It has been " + Decimal(n) + " " + DayUnit(n) + " since " + text + "."
  }

  /** With a space-free count and a unit of "day" or "days", the reply opens with
      "It has been 1 day " exactly when the count reads "1" and the unit is "day". */
  lemma OneDayOpening(c: string, u: string, text: string)
    requires c != [] && ' ' !in c
    requires u == "day" || u == "days"
    ensures StartsWith("It has been " + c + " " + u + " since " + text + ".", "It has been 1 day ")
        <==> c == "1" && u == "day"
  {
    var x := "It has been " + c + " " + u + " since " + text + ".";
    var p := "It has been 1 day ";
    assert x[12] == c[0];
    if |c| >= 2 {
      assert x[13] == c[1] != ' ' == p[13];
    } else {
      assert x[13] == ' ';
      assert x[14..17] == u[..3];
      if u == "days" {
        assert x[17] == 's' != p[17];
      } else {
        assert x[17] == ' ';
        if c == "1" {
          assert x[..18] == p;
        } else {
          assert x[12] != p[12];
        }
      }
    }
  }

  /** The reply of `reset`: the zero-day reply of `days_since` with "now" put after
      "It has", that is "It has now been 0 days since {text}." */
  function ResetMessage(text: string): (m: string)
    ensures m == "It has now" + DaysSinceMessage(0, text)[|"It has"|..]
  {
    ZeroDaysTail(text);
    "It has now" + (" been 0 days since " + text + ".")
  }

  /** Right after an event is created or restarted the count reads "0 days", plural. */
  lemma ZeroDaysMessage(text: string)
    ensures DaysSinceMessage(0, text) == "It has been 0 days since " + text + "."
  {
    assert Decimal(0) == "0";
  }

  /** After its opening "It has", the zero-day reply reads " been 0 days since {text}." */
  lemma ZeroDaysTail(text: string)
    ensures DaysSinceMessage(0, text)[|"It has"|..] == " been 0 days since " + text + "."
  {
    var opening, rest := "It has", " been 0 days since ";
    var tail := rest + text + ".";
    ZeroDaysMessage(text);
    assert "It has been 0 days since " == opening + rest;
    assert "It has been 0 days since " + text + "." == opening + tail;
    assert (opening + tail)[|opening|..] == tail;
  }

  /** The reply split at its first space after the fixed opening. */
  lemma DaysSinceMessageShape(n: int, text: string)
    ensures DaysSinceMessage(n, text)
         == "It has been " + (Decimal(n) + " " + (DayUnit(n) + " since " + text + "."))
  {
  }

  /** The count and the description can be read back from a `days_since` reply: two replies
      are equal only when they report the same count for the same description. */
  lemma DaysSinceMessageInjective(m: int, s: string, n: int, t: string)
    requires DaysSinceMessage(m, s) == DaysSinceMessage(n, t)
    ensures m == n && s == t
  {
    var restM := DayUnit(m) + " since " + s + ".";
    var restN := DayUnit(n) + " since " + t + ".";
    DaysSinceMessageShape(m, s);
    DaysSinceMessageShape(n, t);
    PrefixCancel("It has been ", Decimal(m) + " " + restM, Decimal(n) + " " + restN);
    SplitAtFirst(Decimal(m), ' ', restM, Decimal(n), restN);
    DecimalInjective(m, n);
    SuffixCancel(DayUnit(m) + " since " + s, DayUnit(m) + " since " + t, ".");
    PrefixCancel(DayUnit(m) + " since ", s, t);
  }
}
