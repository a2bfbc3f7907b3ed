/** The closed-market countdown text `"H:M:S"` (src/lib.rs:70-79): Rust's `str::split(':')`,
    `u64::from_str` with a failed parse read as 0, and the total in seconds. */
module TimeToOpen {
  import opened Wrappers

  // ---------------------------------------------------------------------------------------
  // str::split(':')

  /** The pieces of `s` between colons, as `str::split(':')` yields them: a string with k
      colons gives k + 1 pieces, empty pieces included. */
  function Split(s: string): (parts: seq<string>)
    ensures |parts| >= 1
    decreases |s|
  {
    if s == [] then [""]
    else
      var rest := Split(s[1..]);
      if s[0] == ':' then [""] + rest
      else [[s[0]] + rest[0]] + rest[1..]
  }

  /** The inverse of `Split`: the pieces glued back together with a colon between each two. */
  function Join(parts: seq<string>): (s: string)
    requires |parts| >= 1
    decreases |parts|
  {
    if |parts| == 1 then parts[0] else parts[0] + ":" + Join(parts[1..])
  }

  predicate ColonFree(s: string) {
    forall i :: 0 <= i < |s| ==> s[i] != ':'
  }

  function ColonCount(s: string): nat
    decreases |s|
  {
    if s == [] then 0 else (if s[0] == ':' then 1 else 0) + ColonCount(s[1..])
  }

  /** Splitting loses nothing: the pieces contain no colon and join back to the input, and
      there is one more piece than there are colons. */
  lemma {:induction false} SplitJoin(s: string)
    ensures Join(Split(s)) == s
    ensures forall k :: 0 <= k < |Split(s)| ==> ColonFree(Split(s)[k])
    ensures |Split(s)| == ColonCount(s) + 1
    decreases |s|
  {
    if s != [] {
      SplitJoin(s[1..]);
      var rest := Split(s[1..]);
      if s[0] == ':' {
        assert Split(s)[1..] == rest;
      } else {
        var parts := Split(s);
        assert parts[1..] == rest[1..];
        if |rest| == 1 {
          assert Join(parts) == [s[0]] + rest[0];
        } else {
          assert Join(parts) == [s[0]] + (rest[0] + ":" + Join(rest[1..]));
        }
        assert s == [s[0]] + s[1..];
        forall k | 0 <= k < |parts| ensures ColonFree(parts[k]) {
          if k == 0 {
            assert ColonFree(rest[0]);
            assert parts[0] == [s[0]] + rest[0];
          } else {
            assert parts[k] == rest[k];
          }
        }
      }
    }
  }

  /** Joining colon-free pieces and splitting again gives back exactly those pieces. */
  lemma {:induction false} JoinSplit(parts: seq<string>)
    requires |parts| >= 1
    requires forall k :: 0 <= k < |parts| ==> ColonFree(parts[k])
    ensures Split(Join(parts)) == parts
    decreases |parts|
  {
    if |parts| == 1 {
      SplitColonFree(parts[0]);
    } else {
      JoinSplit(parts[1..]);
      SplitPrefix(parts[0], Join(parts[1..]));
      assert parts == [parts[0]] + parts[1..];
    }
  }

  /** A string without colons is a single piece. */
  lemma {:induction false} SplitColonFree(s: string)
    requires ColonFree(s)
    ensures Split(s) == [s]
    decreases |s|
  {
    if s != [] {
      SplitColonFree(s[1..]);
      assert s == [s[0]] + s[1..];
    }
  }

  /** A colon-free head followed by a colon becomes the first piece; the rest is split on. */
  lemma {:induction false} SplitPrefix(head: string, tail: string)
    requires ColonFree(head)
    ensures Split(head + ":" + tail) == [head] + Split(tail)
    decreases |head|
  {
    if head == [] {
      assert head + ":" + tail == [':'] + tail;
      assert ([':'] + tail)[1..] == tail;
    } else {
      var s := head + ":" + tail;
      assert s[1..] == head[1..] + ":" + tail;
      SplitPrefix(head[1..], tail);
      assert [head[0]] + head[1..] == head;
    }
  }

  // ---------------------------------------------------------------------------------------
  // u64::from_str

  predicate IsDigit(c: char) {
    '0' <= c <= '9'
  }

  predicate AllDigits(s: string) {
    forall i :: 0 <= i < |s| ==> IsDigit(s[i])
  }

  /** The value of a run of decimal digits, most significant first. */
  function DigitsValue(s: string): nat
    requires AllDigits(s)
    decreases |s|
  {
    if s == [] then 0
    else DigitsValue(s[..|s| - 1]) * 10 + (s[|s| - 1] as int - '0' as int)
  }

  /** `s.parse::<u64>().ok()`: one leading '+' is accepted when something follows it; then
      at least one ASCII digit and nothing else (no '-', no blanks); values above
      `u64::MAX` are rejected as overflow. */
  function ParseU64(s: string): (r: Option<nat>)
    ensures r.Some? ==> r.value <= U64_MAX
    ensures r.Some? <==> Digits(s).Some? && DigitsValue(Digits(s).value) <= U64_MAX
    ensures r.Some? ==> r.value == DigitsValue(Digits(s).value)
  {
    match Digits(s)
    case None => None
    case Some(d) => if DigitsValue(d) <= U64_MAX then Some(DigitsValue(d)) else None
  }

  /** The digit run `ParseU64` reads: `s` without its optional '+' sign, when that run is a
      non-empty string of digits. */
  function Digits(s: string): (r: Option<string>)
    ensures r.Some? ==> r.value != [] && AllDigits(r.value)
    ensures r.Some? ==> s == r.value || s == "+" + r.value
    ensures s != [] && AllDigits(s) ==> r == Some(s)
    ensures |s| > 1 && s[0] == '+' && AllDigits(s[1..]) ==> r == Some(s[1..])
  {
    var d := if |s| > 1 && s[0] == '+' then s[1..] else s;
    if d != [] && AllDigits(d) then Some(d) else None
  }

  /** A component of the countdown: its parsed value, or 0 when it does not parse
      (`.parse().ok().unwrap_or_default()`). */
  function Component(s: string): (v: nat)
    ensures v <= U64_MAX
    ensures ParseU64(s).None? ==> v == 0
    ensures ParseU64(s).Some? ==> v == ParseU64(s).value
  {
    ParseU64(s).GetOr(0)
  }

  /** The decimal rendering of `n`, without leading zeros. */
  function Decimal(n: nat): (s: string)
    ensures s != [] && AllDigits(s)
    decreases n
  {
    if n < 10 then [('0' as int + n) as char]
    else Decimal(n / 10) + [('0' as int + n % 10) as char]
  }

  lemma {:induction false} DecimalValue(n: nat)
    ensures DigitsValue(Decimal(n)) == n
    decreases n
  {
    if n >= 10 {
      DecimalValue(n / 10);
      var s := Decimal(n);
      assert s[..|s| - 1] == Decimal(n / 10);
    }
  }

  /** A leading zero does not change the value of a digit run. */
  lemma {:induction false} LeadingZero(d: string)
    requires AllDigits(d)
    ensures AllDigits("0" + d)
    ensures DigitsValue("0" + d) == DigitsValue(d)
    decreases |d|
  {
    var z := "0" + d;
    assert IsDigit(z[0]);
    if d != [] {
      LeadingZero(d[..|d| - 1]);
      assert z[..|z| - 1] == "0" + d[..|d| - 1];
    }
  }

  /** Parsing ignores a leading zero in front of a digit run. */
  lemma ParseLeadingZero(t: string)
    requires t != [] && AllDigits(t)
    ensures AllDigits("0" + t)
    ensures ParseU64("0" + t) == ParseU64(t)
  {
    LeadingZero(t);
    var s := "0" + t;
    assert s[0] == '0';
    assert Digits(s) == Some(s);
    assert Digits(t) == Some(t);
  }

  /** The decimal rendering of `n` behind `k` padding zeros ("05", "007"). */
  function Padded(k: nat, n: nat): (s: string)
    ensures s != [] && AllDigits(s)
    decreases k
  {
    if k == 0 then Decimal(n) else "0" + Padded(k - 1, n)
  }

  /** A zero-padded rendering parses to the same value as the plain one. */
  lemma {:induction false} ParsePadded(k: nat, n: nat)
    requires n <= U64_MAX
    ensures ParseU64(Padded(k, n)) == Some(n)
    ensures ColonFree(Padded(k, n))
    decreases k
  {
    if k == 0 {
      ParseDecimal(n);
    } else {
      ParsePadded(k - 1, n);
      ParseLeadingZero(Padded(k - 1, n));
      DigitsColonFree(Padded(k, n));
    }
  }

  lemma DigitsColonFree(s: string)
    requires AllDigits(s)
    ensures ColonFree(s)
  {
    forall i | 0 <= i < |s| ensures s[i] != ':' {
      assert IsDigit(s[i]);
    }
  }

  /** Parsing is the inverse of rendering for every value a `u64` can hold. */
  lemma ParseDecimal(n: nat)
    requires n <= U64_MAX
    ensures ParseU64(Decimal(n)) == Some(n)
    ensures ColonFree(Decimal(n))
  {
    DecimalValue(n);
    var s := Decimal(n);
    assert IsDigit(s[0]);
    assert Digits(s) == Some(s);
  }

  /** A value above `u64::MAX` does not parse, so as a component it counts 0. */
  lemma OverflowIsZero(n: nat)
    requires n > U64_MAX
    ensures ParseU64(Decimal(n)) == None
    ensures Component(Decimal(n)) == 0
  {
    DecimalValue(n);
    var s := Decimal(n);
    assert IsDigit(s[0]);
    assert Digits(s) == Some(s);
  }

  /** A leading minus sign is rejected, as is a lone '+' or the empty string. */
  lemma SignsRejected(d: string)
    ensures ParseU64("-" + d) == None
    ensures ParseU64("+") == None
    ensures ParseU64("") == None
  {
    var s := "-" + d;
    assert !IsDigit(s[0]);
  }

  /** One '+' in front of a digit run changes nothing. */
  lemma PlusSignAccepted(d: string)
    requires d != [] && AllDigits(d)
    ensures ParseU64("+" + d) == ParseU64(d)
  {
    var s := "+" + d;
    assert s[1..] == d;
  }

  // ---------------------------------------------------------------------------------------
  // H:M:S

  /** The countdown text has the three pieces the source indexes (fewer would panic). */
  predicate HasThreeFields(text: string) {
    |Split(text)| >= 3
  }

  lemma ThreeFieldsIffTwoColons(text: string)
    ensures HasThreeFields(text) <==> ColonCount(text) >= 2
  {
    SplitJoin(text);
  }

  /** The seconds until the market opens: `hours * 3600 + minutes * 60 + seconds` over the
      first three pieces, each unparsable piece counting 0; later pieces are ignored. */
  function Countdown(text: string): (secs: nat)
    requires HasThreeFields(text)
    ensures secs <= 3661 * U64_MAX
    ensures (forall k :: 0 <= k < 3 ==> ParseU64(Split(text)[k]).None?) ==> secs == 0
  {
    var parts := Split(text);
    Component(parts[0]) * 3600 + Component(parts[1]) * 60 + Component(parts[2])
  }

  /** For three colon-free pieces, the countdown is the weighted sum of their components,
      whatever follows the third piece. */
  lemma CountdownOfFields(h: string, m: string, s: string, more: seq<string>)
    requires ColonFree(h) && ColonFree(m) && ColonFree(s)
    requires forall k :: 0 <= k < |more| ==> ColonFree(more[k])
    ensures HasThreeFields(Join([h, m, s] + more))
    ensures Countdown(Join([h, m, s] + more)) == Component(h) * 3600 + Component(m) * 60 + Component(s)
  {
    var parts := [h, m, s] + more;
    PiecesColonFree(h, m, s, more);
    JoinSplit(parts);
    CountdownOfSplit(Join(parts), parts);
  }

  lemma PiecesColonFree(h: string, m: string, s: string, more: seq<string>)
    requires ColonFree(h) && ColonFree(m) && ColonFree(s)
    requires forall k :: 0 <= k < |more| ==> ColonFree(more[k])
    ensures forall k :: 0 <= k < |[h, m, s] + more| ==> ColonFree(([h, m, s] + more)[k])
  {
    var parts := [h, m, s] + more;
    forall k | 0 <= k < |parts| ensures ColonFree(parts[k]) {
      if k >= 3 { assert parts[k] == more[k - 3]; }
    }
  }

  lemma CountdownOfSplit(text: string, parts: seq<string>)
    requires Split(text) == parts && |parts| >= 3
    ensures HasThreeFields(text)
    ensures Countdown(text) == Component(parts[0]) * 3600 + Component(parts[1]) * 60 + Component(parts[2])
  {
  }

  /** Rendered hours, minutes and seconds give back `H * 3600 + M * 60 + S`. */
  lemma CountdownOfDecimals(h: nat, m: nat, s: nat, text: string)
    requires h <= U64_MAX && m <= U64_MAX && s <= U64_MAX
    requires text == Decimal(h) + ":" + Decimal(m) + ":" + Decimal(s)
    ensures HasThreeFields(text)
    ensures Countdown(text) == h * 3600 + m * 60 + s
  {
    var dh, dm, ds := Decimal(h), Decimal(m), Decimal(s);
    ParseDecimal(h);
    ParseDecimal(m);
    ParseDecimal(s);
    CountdownOfFields(dh, dm, ds, []);
    assert [dh, dm, ds] + [] == [dh, dm, ds];
    JoinThree(dh, dm, ds);
  }

  lemma JoinThree(a: string, b: string, c: string)
    ensures Join([a, b, c]) == a + ":" + b + ":" + c
  {
    var parts := [a, b, c];
    assert parts[1..] == [b, c];
    assert [b, c][1..] == [c];
    assert Join([b, c]) == b + ":" + c;
    assert Join(parts) == a + ":" + (b + ":" + c);
  }

  /** Rendered values with leading zeros ("00:14:34") count the same as without them. */
  lemma CountdownOfPadded(ph: nat, h: nat, pm: nat, m: nat, ps: nat, s: nat,
                          hours: string, minutes: string, seconds: string, text: string)
    requires h <= U64_MAX && m <= U64_MAX && s <= U64_MAX
    requires hours == Padded(ph, h) && minutes == Padded(pm, m) && seconds == Padded(ps, s)
    requires text == hours + ":" + minutes + ":" + seconds
    ensures HasThreeFields(text)
    ensures Countdown(text) == h * 3600 + m * 60 + s
  {
    ParsePadded(ph, h);
    ParsePadded(pm, m);
    ParsePadded(ps, s);
    CountdownOfParsed(hours, minutes, seconds, h, m, s, text);
  }

  /** Three colon-free pieces that parse to h, m and s count h * 3600 + m * 60 + s. */
  lemma CountdownOfParsed(hours: string, minutes: string, seconds: string,
                          h: nat, m: nat, s: nat, text: string)
    requires ColonFree(hours) && ColonFree(minutes) && ColonFree(seconds)
    requires ParseU64(hours) == Some(h) && ParseU64(minutes) == Some(m) && ParseU64(seconds) == Some(s)
    requires text == hours + ":" + minutes + ":" + seconds
    ensures HasThreeFields(text)
    ensures Countdown(text) == h * 3600 + m * 60 + s
  {
    CountdownOfFields(hours, minutes, seconds, []);
    assert [hours, minutes, seconds] + [] == [hours, minutes, seconds];
    JoinThree(hours, minutes, seconds);
  }

  /** The default text used when `time_to_open` is missing counts zero seconds. */
  lemma DefaultCountdownIsZero()
    ensures HasThreeFields("0:0:0")
    ensures Countdown("0:0:0") == 0
  {
    CountdownOfDecimals(0, 0, 0, "0:0:0");
  }

  /** The worked example: "1:30:15" is 5415 seconds. */
  lemma CountdownExample()
    ensures HasThreeFields("1:30:15")
    ensures Countdown("1:30:15") == 5415
  {
    CountdownOfDecimals(1, 30, 15, "1:30:15");
  }

  /** Zero-padded pieces: "00:14:34" is 874 seconds. */
  lemma PaddedCountdownExample()
    ensures HasThreeFields("00:14:34")
    ensures Countdown("00:14:34") == 874
  {
    CountdownOfPadded(1, 0, 0, 14, 0, 34, "00", "14", "34", "00:14:34");
  }
}
