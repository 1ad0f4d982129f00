/**
 * Filling a reply template with the chosen pair, as
 * `random.choice(responses).format(pair=user_choice)` does (main.py:90).
 * The random choice is an index `pick` supplied by the caller.
 */
module Template {
  import opened Bot

  /**
   * `str.format` restricted to what the templates use: every occurrence of the
   * `{pair}` field, scanning left to right, is replaced by `v`; every other
   * character is copied.
   */
  function Fill(t: string, v: string): (r: string)
    ensures v == Placeholder ==> r == t
    decreases |t|
  {
    if t == [] then []
    else if Placeholder <= t then v + Fill(t[|Placeholder|..], v)
    else [t[0]] + Fill(t[1..], v)
  }

  /** Text without an opening brace has no field, so filling leaves it as it is. */
  lemma {:induction false} FillPlain(s: string, v: string)
    requires '{' !in s
    ensures Fill(s, v) == s
  {
    if s != [] {
      assert s[0] != '{';
      assert !(Placeholder <= s);
      assert '{' !in s[1..] by {
        forall i | 0 <= i < |s[1..]| ensures s[1..][i] != '{' { assert s[1..][i] == s[i + 1]; }
      }
      FillPlain(s[1..], v);
    }
  }

  /** A brace-free prefix is copied unchanged in front of the filled rest. */
  lemma {:induction false} FillPlainPrefix(s: string, t: string, v: string)
    requires '{' !in s
    ensures Fill(s + t, v) == s + Fill(t, v)
  {
    if s != [] {
      assert (s + t)[0] == s[0] != '{';
      assert !(Placeholder <= s + t);
      assert (s + t)[1..] == s[1..] + t;
      assert '{' !in s[1..] by {
        forall i | 0 <= i < |s[1..]| ensures s[1..][i] != '{' { assert s[1..][i] == s[i + 1]; }
      }
      FillPlainPrefix(s[1..], t, v);
    } else {
      assert s + t == t;
    }
  }

  /** A leading field is replaced by the value. */
  lemma FillField(t: string, v: string)
    ensures Fill(Placeholder + t, v) == v + Fill(t, v)
  {
  }

  /** A template made of a brace-free banner, the field and a brace-free body becomes banner, value, body. */
  lemma FillTemplate(banner: string, body: string, v: string)
    requires '{' !in banner && '{' !in body
    ensures Fill(banner + Placeholder + body, v) == banner + v + body
  {
    assert banner + Placeholder + body == banner + (Placeholder + body);
    FillPlainPrefix(banner, Placeholder + body, v);
    FillField(body, v);
    FillPlain(body, v);
  }

  /**
   * The signal text for template `pick` and pair `pair`: the template's banner,
   * the pair name in place of `{pair}`, then the template's body.
   */
  function Signal(pick: nat, pair: string): (r: string)
    requires pick < |Responses|
    ensures r == Banners[pick] + pair + Bodies[pick]
  {
    assert '{' !in UpBanner && '{' !in UpBody;
    assert '{' !in DownBanner && '{' !in DownBody;
    FillTemplate(Banners[pick], Bodies[pick], pair);
    Fill(Responses[pick], pair)
  }

  /** The reply names the pair: the pair can be read back from the text. */
  lemma SignalNamesPair(pick: nat, pair: string)
    requires pick < |Responses|
    ensures var r := Signal(pick, pair);
      |Banners[pick]| + |Bodies[pick]| <= |r| &&
      r[|Banners[pick]|..|r| - |Bodies[pick]|] == pair
  {
  }

  /** Different pairs give different replies under the same template. */
  lemma SignalInjective(pick: nat, a: string, b: string)
    requires pick < |Responses|
    requires Signal(pick, a) == Signal(pick, b)
    ensures a == b
  {
    SignalNamesPair(pick, a);
    SignalNamesPair(pick, b);
  }

  /** The BUY and SELL replies can always be told apart, by their first character. */
  lemma SignalDirectionsDiffer(a: string, b: string)
    ensures Signal(0, a) != Signal(1, b)
  {
    assert Signal(0, a)[0] == '\U{1F7E2}';
    assert Signal(1, b)[0] == '\U{1F534}';
  }
}
