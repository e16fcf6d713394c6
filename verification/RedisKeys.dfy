/**
 * The keys that limiters and membership checks use in the shared Redis: "rl:<bot>:u:<user>"
 * (throttler.py, bootstrap.py, throttling.py) and "subs:<chat>:<user>" (subs_check.py).
 */
module RedisKeys {
  import opened Arithmetic

  // Python's str(int).
  function DecimalOf(n: nat): string {
    if n < 10 then [Digit(n)] else DecimalOf(n / 10) + [Digit(n % 10)]
  }

  function Decimal(n: int): string { if n < 0 then "-" + DecimalOf(-n) else DecimalOf(n) }

  function LimiterKey(bot: string, user: int): string { "rl:" + bot + ":" + "u:" + Decimal(user) }

  function MembershipKey(chat: string, user: int): string { "subs:" + chat + ":" + Decimal(user) }

  lemma {:induction false} DigitsRoundTrip(n: nat)
    ensures ParseDigits(DecimalOf(n)) == n && |DecimalOf(n)| > 0 && AllDigits(DecimalOf(n))
  {
    if n < 10 {
      AppendDigit("", n);
      assert DecimalOf(n) == "" + [Digit(n)];
    } else {
      DigitsRoundTrip(n / 10);
      AppendDigit(DecimalOf(n / 10), n % 10);
    }
  }

  lemma DecimalHasNoColon(n: int)
    ensures ':' !in Decimal(n)
  {
    DigitsRoundTrip(if n < 0 then -n else n);
  }

  lemma DecimalIsInjective(n: int, m: int)
    requires Decimal(n) == Decimal(m)
    ensures n == m
  {
    DigitsRoundTrip(if n < 0 then -n else n);
    DigitsRoundTrip(if m < 0 then -m else m);
    assert n < 0 ==> Decimal(n)[0] == '-' && Decimal(n)[1..] == DecimalOf(-n);
    assert m < 0 ==> Decimal(m)[0] == '-' && Decimal(m)[1..] == DecimalOf(-m);
  }

  // What follows the last colon is determined by the whole string.
  lemma SplitAtLastColon(a: string, x: string, b: string, y: string)
    requires a + ":" + x == b + ":" + y && ':' !in x && ':' !in y
    ensures a == b && x == y
  {
    var s := a + ":" + x;
    assert s[|a|] == ':' && s[|b|] == ':';
    assert forall i :: |a| < i < |s| ==> s[i] == x[i - |a| - 1] != ':';
    assert forall i :: |b| < i < |s| ==> s[i] == y[i - |b| - 1] != ':';
    assert |a| == |b|;
    assert s[..|a|] == a && s[..|b|] == b && s[|a| + 1..] == x && s[|b| + 1..] == y;
  }

  // Different users of a bot, and different bots whatever their names contain, never share a
  // limiter key.
  lemma LimiterKeyIsInjective(bot: string, user: int, bot': string, user': int)
    requires LimiterKey(bot, user) == LimiterKey(bot', user')
    ensures bot == bot' && user == user'
  {
    DecimalHasNoColon(user);
    DecimalHasNoColon(user');
    var a, b := "rl:" + bot + ":u", "rl:" + bot' + ":u";
    assert LimiterKey(bot, user) == a + ":" + Decimal(user);
    assert LimiterKey(bot', user') == b + ":" + Decimal(user');
    SplitAtLastColon(a, Decimal(user), b, Decimal(user'));
    assert a[3..|a| - 2] == bot && b[3..|b| - 2] == bot';
    DecimalIsInjective(user, user');
  }

  lemma MembershipKeyIsInjective(chat: string, user: int, chat': string, user': int)
    requires MembershipKey(chat, user) == MembershipKey(chat', user')
    ensures chat == chat' && user == user'
  {
    DecimalHasNoColon(user);
    DecimalHasNoColon(user');
    SplitAtLastColon("subs:" + chat, Decimal(user), "subs:" + chat', Decimal(user'));
    assert ("subs:" + chat)[5..] == chat && ("subs:" + chat')[5..] == chat';
    DecimalIsInjective(user, user');
  }

  // The number Python's int() reads from the text that str() writes.
  function ReadDecimal(s: string): int {
    if s != "" && s[0] == '-' then 0 - ParseDigits(s[1..]) else ParseDigits(s)
  }

  lemma DecimalReads(n: int)
    ensures ReadDecimal(Decimal(n)) == n && |Decimal(n)| > 0 && AllDigits(Decimal(n)[if n < 0 then 1 else 0..])
  {
    DigitsRoundTrip(if n < 0 then -n else n);
    assert n < 0 ==> Decimal(n)[1..] == DecimalOf(-n);
  }

  lemma DecimalChars(n: int)
    ensures var s := Decimal(n); |s| > 0 && forall i :: 0 <= i < |s| ==> s[i] == '-' || '0' <= s[i] <= '9'
  {
    if n < 0 {
      DigitsRoundTrip(-n);
      assert forall i :: 0 < i < |Decimal(n)| ==> Decimal(n)[i] == DecimalOf(-n)[i - 1];
    } else {
      DigitsRoundTrip(n);
    }
  }

  // Limiters and membership checks live side by side in one Redis, under keys of their own.
  lemma KeysSpelledOut(bot: string, user: int, chat: string, user': int)
    ensures LimiterKey(bot, user) == "rl:" + bot + ":u:" + Decimal(user)
    ensures MembershipKey(chat, user') == "subs:" + chat + ":" + Decimal(user')
    ensures LimiterKey(bot, user) != MembershipKey(chat, user')
  {
    assert "rl:" + bot + ":" + "u:" + Decimal(user) == "rl:" + bot + ":u:" + Decimal(user);
    assert LimiterKey(bot, user)[0] == 'r';
    assert MembershipKey(chat, user')[0] == 's';
  }
}
