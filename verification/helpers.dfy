/** Identity/token generation and validation shared by both pages (helpers.js).
    The browser's `crypto.getRandomValues` is replaced by a finite stream of bytes,
    `entropy`, read from the front: one byte per call, exactly as the source asks
    for one byte per iteration of its rejection loop. */
module Helpers {
  import opened Common

  const SESSION_ID_LENGTH: nat := 20
  const TOKEN_LENGTH: nat := 32
  const SESSION_ID_CHARS: string := "abcdefghijklmnopqrstuvwxyz0123456789"

  /** The regular-expression character class `[a-z0-9]`. */
  predicate IsLowerAlnum(c: char)
  {
    'a' <= c <= 'z' || '0' <= c <= '9'
  }

  /** `^[a-z0-9]{n}$`, read as "exactly n characters, each in the class". */
  predicate IsAlnumOfLength(s: string, n: nat)
  {
    |s| == n && forall i :: 0 <= i < |s| ==> IsLowerAlnum(s[i])
  }

  /** `^[a-z0-9]{n}$` read the way a regular-expression engine runs it: one class
      match per position, then the end anchor. */
  predicate MatchesAlnumRun(s: string, n: nat)
    decreases n
  {
    if n == 0 then s == [] else s != [] && IsLowerAlnum(s[0]) && MatchesAlnumRun(s[1..], n - 1)
  }

  /** The quantified reading of the pattern agrees with the regular-expression engine's. */
  lemma {:induction false} PatternMeaning(s: string, n: nat)
    ensures MatchesAlnumRun(s, n) <==> IsAlnumOfLength(s, n)
    decreases n
  {
    if n > 0 && s != [] {
      PatternMeaning(s[1..], n - 1);
      if IsAlnumOfLength(s, n) {
        assert forall i :: 0 <= i < |s[1..]| ==> s[1..][i] == s[i + 1];
      }
      if MatchesAlnumRun(s, n) {
        forall i | 0 <= i < |s|
          ensures IsLowerAlnum(s[i])
        {
          if i > 0 {
            assert s[i] == s[1..][i - 1];
          }
        }
      }
    }
  }

  /** isValidSessionId: a string of exactly SESSION_ID_LENGTH characters of `[a-z0-9]`. */
  predicate IsValidSessionId(id: string)
  {
    IsAlnumOfLength(id, SESSION_ID_LENGTH)
  }

  /** isValidToken: a string of exactly TOKEN_LENGTH characters of `[a-z0-9]`. */
  predicate IsValidToken(t: string)
  {
    IsAlnumOfLength(t, TOKEN_LENGTH)
  }

  /** The i-th symbol of the alphabet, computed from its position. */
  function Symbol(i: int): (c: char)
    ensures 0 <= i < 36 ==> IsLowerAlnum(c)
  {
    if 0 <= i < 26 then ('a' as int + i) as char
    else if 26 <= i < 36 then ('0' as int + (i - 26)) as char
    else '?'
  }

  lemma AlphabetSpelledOut()
    ensures |SESSION_ID_CHARS| == 36
    ensures forall i :: 0 <= i < 36 ==> SESSION_ID_CHARS[i] == Symbol(i)
  {
    assert SESSION_ID_CHARS == seq(36, i requires 0 <= i < 36 => Symbol(i));
  }

  /** SESSION_ID_CHARS holds 36 distinct symbols and they are exactly the class `[a-z0-9]`,
      so every generated string is accepted by the validators and vice versa every
      symbol the validators accept can be generated. */
  lemma AlphabetIsCharacterClass()
    ensures |SESSION_ID_CHARS| == 36
    ensures forall i, j :: 0 <= i < j < 36 ==> SESSION_ID_CHARS[i] != SESSION_ID_CHARS[j]
    ensures forall c :: c in SESSION_ID_CHARS <==> IsLowerAlnum(c)
  {
    AlphabetSpelledOut();
    forall c | IsLowerAlnum(c)
      ensures c in SESSION_ID_CHARS
    {
      var i := if 'a' <= c <= 'z' then c as int - 'a' as int else c as int - '0' as int + 26;
      assert SESSION_ID_CHARS[i] == Symbol(i) == c;
    }
  }

  // ---------------------------------------------------------------------------
  // secureRandomInt: rejection sampling on single bytes

  /** `Math.floor(256 / max) * max`: the bytes below this bound are accepted. */
  function MaxUnbiased(max: int): (m: int)
    requires 1 <= max <= 256
    ensures max <= m <= 256
  {
    QuotientBounds(max);
    (256 / max) * max
  }

  lemma QuotientBounds(max: int)
    requires 1 <= max <= 256
    ensures 1 <= 256 / max && max <= (256 / max) * max <= 256
  {
    var q := 256 / max;
    assert 256 == q * max + 256 % max by { assert 256 == max * (256 / max) + 256 % max; }
    assert q > 0 by {
      assert q * max > 0;
      if q <= 0 { MulNotPositive(q, max); }
    }
    MulAtLeast(q, max);
  }

  lemma MulNotPositive(q: int, m: int)
    requires q <= 0 && m > 0
    ensures q * m <= 0
  {
  }

  predicate Accepts(max: int, b: byte)
    requires 1 <= max <= 256
  {
    (b as int) < MaxUnbiased(max)
  }

  /** The successive results that repeated calls of secureRandomInt(max) produce
      when the entropy source yields the bytes `entropy` in order: every accepted
      byte, reduced modulo max; rejected bytes produce nothing. */
  function Draws(max: int, entropy: seq<byte>): (r: seq<int>)
    requires 1 <= max <= 256
    ensures |r| <= |entropy|
  {
    if entropy == [] then []
    else (if Accepts(max, entropy[0]) then [entropy[0] as int % max] else []) + Draws(max, entropy[1..])
  }

  /** Every draw is a valid index into an alphabet of max symbols. */
  lemma {:induction false} DrawsInRange(max: int, entropy: seq<byte>)
    requires 1 <= max <= 256
    ensures forall i :: 0 <= i < |Draws(max, entropy)| ==> 0 <= Draws(max, entropy)[i] < max
  {
    if entropy != [] {
      DrawsInRange(max, entropy[1..]);
    }
  }

  /** secureRandomInt(max): draws bytes until one is below MaxUnbiased(max), and returns
      it modulo max. `used` is how many bytes of the stream were consumed. */
  method SecureRandomInt(max: int, entropy: seq<byte>) returns (x: int, used: nat)
    requires 1 <= max <= 256
    requires Draws(max, entropy) != []
    ensures 0 <= x < max
    ensures 0 < used <= |entropy|
    ensures Accepts(max, entropy[used - 1]) && x == entropy[used - 1] as int % max
    ensures forall j :: 0 <= j < used - 1 ==> !Accepts(max, entropy[j])
    ensures x == Draws(max, entropy)[0]
    ensures Draws(max, entropy[used..]) == Draws(max, entropy)[1..]
  {
    var maxUnbiased := (256 / max) * max;
    var b := entropy[0];
    used := 1;
    while b as int >= maxUnbiased
      invariant 1 <= used <= |entropy|
      invariant b == entropy[used - 1]
      invariant forall j :: 0 <= j < used - 1 ==> !Accepts(max, entropy[j])
      invariant Draws(max, entropy[used - 1..]) == Draws(max, entropy)
      decreases |entropy| - used
    {
      assert entropy[used - 1..][1..] == entropy[used..];
      b := entropy[used];
      used := used + 1;
    }
    assert entropy[used - 1..][1..] == entropy[used..];
    x := b as int % max;
  }

  /** For the alphabet of 36 symbols the four bytes 252..255 are always rejected. */
  lemma RejectedBytesForAlphabet(b: byte)
    ensures Accepts(|SESSION_ID_CHARS|, b) <==> b < 252
  {
  }

  /** The number of values b in [0, n) with b % max == r. */
  function ResidueCount(max: int, r: int, n: nat): nat
    requires 1 <= max
  {
    if n == 0 then 0 else ResidueCount(max, r, n - 1) + (if (n - 1) % max == r then 1 else 0)
  }

  lemma {:induction false} MulAtLeast(d: int, m: int)
    requires d >= 1 && m > 0
    ensures d * m >= m
  {
    if d > 1 {
      MulAtLeast(d - 1, m);
      assert d * m == (d - 1) * m + m;
    }
  }

  lemma DivModUnique(n: int, m: int, q: int, s: int)
    requires 0 < m && 0 <= s < m && n == q * m + s
    ensures n / m == q && n % m == s
  {
    var q', s' := n / m, n % m;
    assert n == q' * m + s' by { assert n == m * (n / m) + n % m; }
    assert (q - q') * m == s' - s;
    if q > q' {
      MulAtLeast(q - q', m);
    } else if q < q' {
      MulAtLeast(q' - q, m);
    }
  }

  /** q blocks of m values, counted without multiplication. */
  function Blocks(q: nat, m: nat): nat
  {
    if q == 0 then 0 else Blocks(q - 1, m) + m
  }

  lemma {:induction false} BlocksIsProduct(q: nat, m: nat)
    ensures Blocks(q, m) == q * m
  {
    if q > 0 {
      BlocksIsProduct(q - 1, m);
      assert q * m == (q - 1) * m + m;
    }
  }

  /** Counting one more value: p = q * max + s has remainder s. */
  lemma ResidueCountStep(max: nat, r: int, q: nat, s: int)
    requires 1 <= max && 0 <= s < max
    ensures ResidueCount(max, r, Blocks(q, max) + s + 1) ==
            ResidueCount(max, r, Blocks(q, max) + s) + (if s == r then 1 else 0)
  {
    BlocksIsProduct(q, max);
    DivModUnique(Blocks(q, max) + s, max, q, s);
  }

  /** Counting block by block: among the first q * max + s values (s < max), remainder r
      occurs once in each of the q whole blocks, plus once more when r < s. */
  lemma {:induction false} ResidueCountBlocks(max: nat, r: int, q: nat, s: nat)
    requires 1 <= max && 0 <= r < max && s < max
    ensures ResidueCount(max, r, Blocks(q, max) + s) == q + (if r < s then 1 else 0)
    decreases q, s
  {
    if s > 0 {
      ResidueCountBlocks(max, r, q, s - 1);
      ResidueCountStep(max, r, q, s - 1);
    } else if q > 0 {
      ResidueCountBlocks(max, r, q - 1, max - 1);
      ResidueCountStep(max, r, q - 1, max - 1);
    }
  }

  /** Uniformity counting argument: among the accepted bytes [0, MaxUnbiased(max)),
      every result r in [0, max) is the remainder of exactly floor(256 / max) bytes. */
  lemma UniformPreimages(max: int, r: int)
    requires 1 <= max <= 256 && 0 <= r < max
    ensures ResidueCount(max, r, MaxUnbiased(max)) == 256 / max
  {
    QuotientBounds(max);
    BlocksIsProduct(256 / max, max);
    ResidueCountBlocks(max, r, 256 / max, 0);
  }

  // ---------------------------------------------------------------------------
  // generateSecureId / generateSecureToken

  /** The symbols of the given draws, in order. */
  function Spell(draws: seq<int>): (r: string)
    ensures |r| == |draws|
    ensures forall k :: 0 <= k < |r| ==> r[k] == Symbol(draws[k])
  {
    if draws == [] then [] else Spell(draws[..|draws| - 1]) + [Symbol(draws[|draws| - 1])]
  }

  /** `SESSION_ID_CHARS[secureRandomInt(SESSION_ID_CHARS.length)]`: the symbol of the
      stream's first draw; the rest of the stream yields the remaining draws. */
  method NextSymbol(entropy: seq<byte>) returns (c: char, used: nat)
    requires Draws(36, entropy) != []
    ensures c == Symbol(Draws(36, entropy)[0])
    ensures used <= |entropy| && Draws(36, entropy[used..]) == Draws(36, entropy)[1..]
  {
    AlphabetSpelledOut();
    var x;
    x, used := SecureRandomInt(|SESSION_ID_CHARS|, entropy);
    c := SESSION_ID_CHARS[x];
  }

  /** The loop both generators run: `len` times, append the next symbol. The result
      spells the first `len` draws of the stream. */
  method RandomAlphanumeric(len: nat, entropy: seq<byte>) returns (s: string, used: nat)
    requires |Draws(36, entropy)| >= len
    ensures s == Spell(Draws(36, entropy)[..len])
    ensures used <= |entropy|
    ensures Draws(36, entropy[used..]) == Draws(36, entropy)[len..]
  {
    ghost var draws := Draws(36, entropy);
    s := "";
    used := 0;
    var i := 0;
    while i < len
      invariant 0 <= i <= len && used <= |entropy|
      invariant s == Spell(draws[..i])
      invariant Draws(36, entropy[used..]) == draws[i..]
    {
      var c, n := NextSymbol(entropy[used..]);
      Advance(entropy, used, n, draws, i);
      s := s + [c];
      used := used + n;
      i := i + 1;
    }
  }

  /** One more symbol spelled, and the stream advanced past the bytes it used. */
  lemma Advance(entropy: seq<byte>, used: nat, n: nat, draws: seq<int>, i: nat)
    requires used <= |entropy| && i < |draws|
    requires Draws(36, entropy[used..]) == draws[i..]
    requires n <= |entropy[used..]| && Draws(36, entropy[used..][n..]) == Draws(36, entropy[used..])[1..]
    ensures used + n <= |entropy| && Draws(36, entropy[used + n..]) == draws[i + 1..]
    ensures Spell(draws[..i + 1]) == Spell(draws[..i]) + [Symbol(Draws(36, entropy[used..])[0])]
  {
    assert entropy[used..][n..] == entropy[used + n..];
    assert draws[i..][1..] == draws[i + 1..];
    assert draws[..i + 1][..i] == draws[..i];
  }

  /** generateSecureId(len = SESSION_ID_LENGTH). The bytes it leaves unused yield the
      draws after its own, so a token generated next from them starts where it stopped. */
  method GenerateSecureId(entropy: seq<byte>, len: nat := SESSION_ID_LENGTH) returns (id: string, used: nat)
    requires |Draws(|SESSION_ID_CHARS|, entropy)| >= len
    ensures IsAlnumOfLength(id, len)
    ensures forall i :: 0 <= i < len ==> id[i] == Symbol(Draws(|SESSION_ID_CHARS|, entropy)[i])
    ensures len == SESSION_ID_LENGTH ==> IsValidSessionId(id)
    ensures used <= |entropy|
    ensures Draws(|SESSION_ID_CHARS|, entropy[used..]) == Draws(|SESSION_ID_CHARS|, entropy)[len..]
  {
    AlphabetSpelledOut();
    DrawsInRange(36, entropy);
    id, used := RandomAlphanumeric(len, entropy);
  }

  /** generateSecureToken(len = TOKEN_LENGTH). */
  method GenerateSecureToken(entropy: seq<byte>, len: nat := TOKEN_LENGTH) returns (token: string, used: nat)
    requires |Draws(|SESSION_ID_CHARS|, entropy)| >= len
    ensures IsAlnumOfLength(token, len)
    ensures forall i :: 0 <= i < len ==> token[i] == Symbol(Draws(|SESSION_ID_CHARS|, entropy)[i])
    ensures len == TOKEN_LENGTH ==> IsValidToken(token)
    ensures used <= |entropy|
    ensures Draws(|SESSION_ID_CHARS|, entropy[used..]) == Draws(|SESSION_ID_CHARS|, entropy)[len..]
  {
    AlphabetSpelledOut();
    DrawsInRange(36, entropy);
    token, used := RandomAlphanumeric(len, entropy);
  }

  /** The validators accept exactly the strings of the right length over `[a-z0-9]`:
      one character outside the class (an upper-case letter, say) is enough to reject. */
  lemma ValidatorsRejectForeignCharacter(s: string, i: nat)
    requires i < |s| && !IsLowerAlnum(s[i])
    ensures !IsValidSessionId(s) && !IsValidToken(s)
  {
  }
}
