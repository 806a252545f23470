/** XML escaping of PSRP text: what unescaping makes of escaped text, and when that is the text itself. */
module XmlEscape {
  import opened Bytes

  function HexDigit(n: nat): char
    requires n < 16
  {
    if n < 10 then '0' + n as char else 'A' + (n - 10) as char
  }

  /** The control characters that have no XML form. */
  predicate Control(c: char) {
    c < 32 as char && c != '\t' && c != '\n' && c != '\r'
  }

  /** The entities in the order in which they are unescaped. */
  function Entity(rank: nat): (e: string)
    requires 1 <= rank <= 5
    ensures |e| > 1
  {
    if rank == 1 then "&lt;" else if rank == 2 then "&gt;" else if rank == 3 then "&amp;"
    else if rank == 4 then "&quot;" else "&apos;"
  }

  function Sign(rank: nat): char
    requires 1 <= rank <= 5
  {
    if rank == 1 then '<' else if rank == 2 then '>' else if rank == 3 then '&' else if rank == 4 then '"' else '\''
  }

  /** The place of a character in that order, 0 for a character without an entity. */
  function Rank(c: char): (r: nat)
    ensures r <= 5 && (r > 0 ==> Sign(r) == c)
  {
    if c == '<' then 1 else if c == '>' then 2 else if c == '&' then 3 else if c == '"' then 4
    else if c == '\'' then 5 else 0
  }

  /** How a character stands in escaped text once the first `k` entities are unescaped. */
  function StageChar(c: char, k: nat): (s: string)
    ensures s != []
  {
    if k < Rank(c) then Entity(Rank(c))
    else if Control(c) then "_x00" + [HexDigit(c as int / 16), HexDigit(c as int % 16)] + "_"
    else [c]
  }

  function Stage(s: string, k: nat): string {
    if s == [] then [] else StageChar(s[0], k) + Stage(s[1..], k)
  }

  lemma StageOne(c: char, s: string, k: nat)
    ensures Stage([c] + s, k) == StageChar(c, k) + Stage(s, k)
  {
    assert ([c] + s)[1..] == s;
  }

  lemma {:induction false} StageSum(a: string, b: string, k: nat)
    ensures Stage(a + b, k) == Stage(a, k) + Stage(b, k)
  {
    hide StageChar;
    if a == [] {
      assert a + b == b;
    } else {
      assert (a + b)[1..] == a[1..] + b;
      StageSum(a[1..], b, k);
    }
  }

  lemma StageSnoc(s: string, i: nat)
    requires i < |s|
    ensures Stage(s[..i + 1], 0) == Stage(s[..i], 0) + StageChar(s[i], 0)
  {
    hide StageChar;
    assert s[..i + 1] == s[..i] + [s[i]];
    StageSum(s[..i], [s[i]], 0);
    StageOne(s[i], [], 0);
    assert [s[i]] + [] == [s[i]];
  }

  /** The value of an upper-case hexadecimal digit. */
  function HexValue(c: char): Option<nat> {
    if '0' <= c <= '9' then Some(c as int - '0' as int)
    else if 'A' <= c <= 'F' then Some(c as int - 'A' as int + 10)
    else None
  }

  /** A control character is written as its number in four hexadecimal digits between `_x` and `_`. */
  lemma ControlForm(c: char)
    requires Control(c)
    ensures var e := StageChar(c, 0);
            && |e| == 7 && e[0] == '_' && e[1] == 'x' && e[6] == '_'
            && HexValue(e[2]).Some? && HexValue(e[3]).Some? && HexValue(e[4]).Some? && HexValue(e[5]).Some?
            && 0x1000 * HexValue(e[2]).value + 0x100 * HexValue(e[3]).value + 16 * HexValue(e[4]).value
               + HexValue(e[5]).value == c as int
  {
  }

  /** Which characters are rewritten: those below U+0020 except tab, line feed and carriage return. */
  lemma RewrittenControls(c: char)
    ensures StageChar(c, 0) == [c] <==> c as int in {9, 10, 13} || (c as int >= 32 && c !in "<>&\"'")
  {
  }

  /** What one character adds to escaped text. */
  method EscapeChar(c: char) returns (e: string)
    ensures e == StageChar(c, 0)
  {
    if c == '<' {
      e := "&lt;";
    } else if c == '>' {
      e := "&gt;";
    } else if c == '&' {
      e := "&amp;";
    } else if c == '"' {
      e := "&quot;";
    } else if c == '\'' {
      e := "&apos;";
    } else if Control(c) {
      e := "_x00" + [HexDigit(c as int / 16), HexDigit(c as int % 16)] + "_";
    } else {
      e := [c];
    }
  }

  /** `xml_escape`. */
  method Escape(s: string) returns (out: string)
    ensures out == Stage(s, 0)
  {
    out := "";
    for i := 0 to |s|
      invariant out == Stage(s[..i], 0)
    {
      hide Stage, StageChar;
      StageSnoc(s, i);
      var e := EscapeChar(s[i]);
      out := out + e;
    }
    assert s[..|s|] == s;
  }

  /** Every occurrence of a pattern, from the left and without overlap, replaced by one character. */
  function Replace(s: string, pattern: string, c: char): (r: string)
    requires pattern != []
    ensures |r| <= |s|
  {
    if s == [] then []
    else if pattern <= s then [c] + Replace(s[|pattern|..], pattern, c)
    else [s[0]] + Replace(s[1..], pattern, c)
  }

  /** `xml_unescape`. */
  function Unescape(s: string): string {
    var signs := Replace(Replace(Replace(s, Entity(1), Sign(1)), Entity(2), Sign(2)), Entity(3), Sign(3));
    Replace(Replace(signs, Entity(4), Sign(4)), Entity(5), Sign(5))
  }

  predicate Contains(s: string, pattern: string) {
    exists i | 0 <= i <= |s| :: pattern <= s[i..]
  }

  /** Text in which the pattern's first character does not stand is passed over. */
  lemma {:induction false} PassOver(t: string, rest: string, pattern: string, c: char)
    requires pattern != [] && pattern[0] !in t
    ensures Replace(t + rest, pattern, c) == t + Replace(rest, pattern, c)
  {
    if t == [] {
      assert t + rest == rest;
    } else {
      assert (t + rest)[0] == t[0] && (t + rest)[1..] == t[1..] + rest;
      PassOver(t[1..], rest, pattern, c);
    }
  }

  lemma EntityShape(i: nat, j: nat, rest: string)
    requires 1 <= i <= 5 && 1 <= j <= 5
    ensures Entity(i)[0] == '&' && '&' !in Entity(i)[1..]
    ensures i != j ==> !(Entity(i) <= Entity(j) + rest)
  {
    var e, t := Entity(i), Entity(j) + rest;
    assert t[1] == Entity(j)[1] && t[2] == Entity(j)[2];
    assert e <= t ==> e[1] == t[1] && e[2] == t[2];
  }

  lemma PassHead(t: string, pattern: string, c: char)
    requires pattern != [] && t != [] && !(pattern <= t)
    ensures Replace(t, pattern, c) == [t[0]] + Replace(t[1..], pattern, c)
  {
  }

  lemma PassText(e: string, rest: string, pattern: string, c: char)
    requires pattern != [] && e != [] && pattern[0] !in e[1..] && !(pattern <= e + rest)
    ensures Replace(e + rest, pattern, c) == e + Replace(rest, pattern, c)
  {
    hide Replace;
    var t, tail := e + rest, Replace(rest, pattern, c);
    PassHead(t, pattern, c);
    assert t[0] == e[0] && t[1..] == e[1..] + rest;
    PassOver(e[1..], rest, pattern, c);
    assert [e[0]] + (e[1..] + tail) == e + tail;
  }

  /** Another entity is passed over whole. */
  lemma PassEntity(i: nat, j: nat, rest: string)
    requires 1 <= i <= 5 && 1 <= j <= 5 && i != j
    ensures Replace(Entity(j) + rest, Entity(i), Sign(i)) == Entity(j) + Replace(rest, Entity(i), Sign(i))
  {
    EntityShape(i, j, rest);
    EntityShape(j, i, rest);
    hide Entity, Sign, Replace;
    PassText(Entity(j), rest, Entity(i), Sign(i));
  }

  lemma ReplaceHead(i: nat, rest: string)
    requires 1 <= i <= 5
    ensures Replace(Entity(i) + rest, Entity(i), Sign(i)) == [Sign(i)] + Replace(rest, Entity(i), Sign(i))
  {
    assert (Entity(i) + rest)[|Entity(i)|..] == rest;
  }

  lemma NoAmpersand(c: char, k: nat)
    requires Rank(c) <= k && c != '&'
    ensures '&' !in StageChar(c, k) && StageChar(c, k) == StageChar(c, k + 1)
  {
  }

  lemma StandsAsEntity(c: char, k: nat)
    requires k < Rank(c)
    ensures StageChar(c, k) == Entity(Rank(c))
  {
  }

  /** A character other than an ampersand is passed over, in whatever form it stands. */
  lemma PassChar(c: char, k: nat, rest: string)
    requires k < 5 && Rank(c) != k + 1 && c != '&'
    ensures Replace(StageChar(c, k) + rest, Entity(k + 1), Sign(k + 1))
         == StageChar(c, k + 1) + Replace(rest, Entity(k + 1), Sign(k + 1))
  {
    hide Replace;
    if k < Rank(c) {
      PassEntity(k + 1, Rank(c), rest);
      StandsAsEntity(c, k);
      StandsAsEntity(c, k + 1);
      hide StageChar, Entity, Sign, Rank;
    } else {
      EntityShape(k + 1, k + 1, rest);
      NoAmpersand(c, k);
      hide StageChar, Entity, Sign;
      PassOver(StageChar(c, k), rest, Entity(k + 1), Sign(k + 1));
    }
  }

  /** While ampersands are still escaped, unescaping an entity only restores its character. */
  lemma {:induction false} EarlyStep(s: string, k: nat)
    requires k < 3
    ensures Replace(Stage(s, k), Entity(k + 1), Sign(k + 1)) == Stage(s, k + 1)
  {
    if s != [] {
      hide Replace;
      EarlyStep(s[1..], k);
      var rest := Stage(s[1..], k);
      if Rank(s[0]) == k + 1 {
        ReplaceHead(k + 1, rest);
      } else if s[0] == '&' {
        PassEntity(k + 1, 3, rest);
      } else {
        PassChar(s[0], k, rest);
      }
    } else {
      assert Stage(s, k) == [] == Stage(s, k + 1);
    }
  }

  /** Letters and semicolons stand for themselves at every stage, and nothing else begins with one. */
  predicate Plain(c: char) {
    'a' <= c <= 'z' || c == ';'
  }

  lemma HeadPrefix(x: char, w: string, y: char, t: string)
    ensures [x] + w <= [y] + t <==> x == y && w <= t
  {
    if [x] + w <= [y] + t {
      assert ([x] + w)[0] == ([y] + t)[0];
      assert w == ([x] + w)[1..] && t == ([y] + t)[1..];
    }
  }

  lemma PlainHead(x: char, y: char, w: string, s: string, k: nat)
    requires Plain(x)
    requires w <= Stage(s, k) <==> w <= s
    requires w <= s ==> Stage(s, k) == w + Stage(s[|w|..], k)
    ensures [x] + w <= Stage([y] + s, k) <==> [x] + w <= [y] + s
    ensures [x] + w <= [y] + s ==> Stage([y] + s, k) == [x] + w + Stage(([y] + s)[1 + |w|..], k)
  {
    StageOne(y, s, k);
    StageStarts(y, k);
    hide StageChar, Stage, Plain;
    var e, tail := StageChar(y, k), Stage(s, k);
    assert e + tail == [e[0]] + (e[1..] + tail);
    HeadPrefix(x, w, e[0], e[1..] + tail);
    HeadPrefix(x, w, y, s);
    if x == y {
      assert e[1..] + tail == tail;
      if w <= s {
        assert ([y] + s)[1 + |w|..] == s[|w|..];
      }
    }
  }

  lemma {:induction false} PlainPrefix(w: string, s: string, k: nat)
    requires forall c | c in w :: Plain(c)
    ensures w <= Stage(s, k) <==> w <= s
    ensures w <= s ==> Stage(s, k) == w + Stage(s[|w|..], k)
  {
    if w == [] {
      assert s[0..] == s;
    } else if s != [] {
      assert w[0] in w && w == [w[0]] + w[1..] && s == [s[0]] + s[1..];
      PlainPrefix(w[1..], s[1..], k);
      PlainHead(w[0], s[0], w[1..], s[1..], k);
    }
  }

  lemma StageStarts(c: char, k: nat)
    ensures StageChar(c, k)[0] == c || !Plain(StageChar(c, k)[0])
    ensures Plain(c) ==> StageChar(c, k) == [c]
  {
  }

  /** Once ampersands are restored, a literal entity in the text is unescaped along with the escaped ones. */
  lemma {:induction false} LateStep(s: string, k: nat)
    requires 3 <= k < 5
    ensures Replace(Stage(s, k), Entity(k + 1), Sign(k + 1)) == Stage(Replace(s, Entity(k + 1), Sign(k + 1)), k + 1)
    decreases |s|
  {
    var e, c := Entity(k + 1), Sign(k + 1);
    if s == [] {
      return;
    }
    var rest := Stage(s[1..], k);
    if s[0] == '&' {
      LateAmpersand(s, k);
      if e <= s {
        LateStep(s[|e|..], k);
        ReplaceHead(k + 1, Stage(s[|e|..], k));
      } else {
        LateStep(s[1..], k);
        assert Stage(s, k)[1..] == rest;
        StageOne('&', Replace(s[1..], e, c), k + 1);
      }
    } else {
      assert !(e <= s) by { EntityShape(k + 1, k + 1, ""); }
      LateStep(s[1..], k);
      StageOne(s[0], Replace(s[1..], e, c), k + 1);
      if Rank(s[0]) == k + 1 {
        ReplaceHead(k + 1, rest);
      } else {
        PassChar(s[0], k, rest);
      }
    }
  }

  lemma LateEntity(k: nat)
    requires 3 <= k < 5
    ensures Entity(k + 1) == ['&'] + Entity(k + 1)[1..]
    ensures forall c | c in Entity(k + 1)[1..] :: Plain(c)
  {
  }

  lemma AmpersandPrefix(w: string, a: string, k: nat)
    requires forall c | c in w :: Plain(c)
    ensures ['&'] + w <= ['&'] + Stage(a, k) <==> ['&'] + w <= ['&'] + a
    ensures ['&'] + w <= ['&'] + a ==> ['&'] + Stage(a, k) == ['&'] + w + Stage((['&'] + a)[1 + |w|..], k)
  {
    PlainPrefix(w, a, k);
    hide Stage, Plain;
    HeadPrefix('&', w, '&', a);
    HeadPrefix('&', w, '&', Stage(a, k));
    if w <= a {
      TailAfter('&', w, a);
      ThreeParts('&', w, Stage(a[|w|..], k));
    }
  }

  lemma TailAfter(x: char, w: string, a: string)
    requires |w| <= |a|
    ensures ([x] + a)[1 + |w|..] == a[|w|..]
  {
  }

  lemma ThreeParts(x: char, w: string, t: string)
    ensures [x] + (w + t) == [x] + w + t
  {
  }

  lemma LateAmpersand(s: string, k: nat)
    requires 3 <= k < 5 && s != [] && s[0] == '&'
    ensures Stage(s, k) == ['&'] + Stage(s[1..], k)
    ensures var e := Entity(k + 1);
            && (e <= Stage(s, k) <==> e <= s)
            && (e <= s ==> Stage(s, k) == e + Stage(s[|e|..], k))
  {
    assert Stage(s, k) == ['&'] + Stage(s[1..], k);
    hide Stage, Plain;
    LateEntity(k);
    hide Entity;
    AmpersandPrefix(Entity(k + 1)[1..], s[1..], k);
    assert s == ['&'] + s[1..];
  }

  /** What unescaping makes of escaped text: literal quote entities become quotes. */
  lemma UnescapeEscaped(s: string)
    ensures Unescape(Stage(s, 0)) == Stage(Replace(Replace(s, "&quot;", '"'), "&apos;", '\''), 5)
  {
    hide Stage, Replace;
    assert Entity(4) == "&quot;" && Sign(4) == '"' && Entity(5) == "&apos;" && Sign(5) == '\'';
    EarlyStep(s, 0);
    EarlyStep(s, 1);
    EarlyStep(s, 2);
    LateStep(s, 3);
    LateStep(Replace(s, "&quot;", '"'), 4);
    hide Entity, Sign;
  }

  /** Replacing an entity shortens the text unless it does not occur, and then changes nothing. */
  lemma {:induction false} ReplaceShortens(s: string, pattern: string, c: char)
    requires |pattern| > 1
    ensures if Contains(s, pattern) then |Replace(s, pattern, c)| < |s| else Replace(s, pattern, c) == s
  {
    if s == [] {
    } else if pattern <= s {
      assert pattern <= s[0..];
    } else {
      ReplaceShortens(s[1..], pattern, c);
      ContainsTail(s, pattern);
    }
  }

  lemma ContainsTail(s: string, pattern: string)
    requires s != [] && !(pattern <= s)
    ensures Contains(s, pattern) <==> Contains(s[1..], pattern)
  {
    assert forall i | 0 <= i <= |s| - 1 :: s[1..][i..] == s[i + 1..];
    assert s[0..] == s;
    if Contains(s, pattern) {
      var i :| 0 <= i <= |s| && pattern <= s[i..];
      assert pattern <= s[1..][i - 1..];
    }
    if Contains(s[1..], pattern) {
      var i :| 0 <= i <= |s[1..]| && pattern <= s[1..][i..];
      assert pattern <= s[i + 1..];
    }
  }

  predicate HasControl(s: string) {
    exists c | c in s :: Control(c)
  }

  lemma {:induction false} LastStage(s: string)
    ensures !HasControl(Stage(s, 5))
    ensures !HasControl(s) ==> Stage(s, 5) == s
  {
    if s != [] {
      LastStage(s[1..]);
      var c := s[0];
      forall d | d in StageChar(c, 5)
        ensures !Control(d)
      {
      }
      if !HasControl(s) {
        assert c in s && forall d | d in s[1..] :: d in s;
      }
    }
  }

  lemma {:induction false} ReplaceAddsNoControl(s: string, pattern: string, c: char)
    requires pattern != [] && !Control(c) && !HasControl(s)
    ensures !HasControl(Replace(s, pattern, c))
  {
    if s != [] {
      var rest := if pattern <= s then s[|pattern|..] else s[1..];
      assert forall d | d in rest :: d in s;
      assert s[0] in s;
      ReplaceAddsNoControl(rest, pattern, c);
    }
  }

  /**
   The escaping round trip: text comes back from escaping and unescaping exactly when it holds neither a
   rewritten control character nor a literal quote entity.
   */
  lemma EscapeRoundTrip(s: string)
    ensures Unescape(Stage(s, 0)) == s <==> !HasControl(s) && !Contains(s, "&quot;") && !Contains(s, "&apos;")
  {
    UnescapeEscaped(s);
    var t := Replace(s, "&quot;", '"');
    var u := Replace(t, "&apos;", '\'');
    LastStage(u);
    if !HasControl(s) {
      ReplaceAddsNoControl(s, "&quot;", '"');
      ReplaceAddsNoControl(t, "&apos;", '\'');
      ReplaceShortens(s, "&quot;", '"');
      ReplaceShortens(t, "&apos;", '\'');
    }
  }
}
