/**
 * mac2str and str2mac from src/helperFunctions.cpp: printing a six-byte MAC
 * address as "XX:XX:XX:XX:XX:XX" and parsing such text back into six bytes.
 */
module MacAddress {
  import opened CLib

  /** Length of the text mac2str writes, without its terminating NUL. */
  const MacTextLength: nat := 17

  /** Groups of text joined with ':' between them, as "%02X:%02X" lays them out. */
  function Join(gs: seq<string>): string {
    if |gs| == 0 then "" else if |gs| == 1 then gs[0] else gs[0] + ":" + Join(gs[1..])
  }

  /** The six "%02X" renderings of the bytes of m, in order. */
  function HexGroups(m: seq<uint8>): (gs: seq<string>)
    requires |m| == 6
    ensures |gs| == 6 && forall k :: 0 <= k < 6 ==> gs[k] == Hex2(m[k])
  {
    seq(6, k requires 0 <= k < 6 => Hex2(m[k]))
  }

  /**
   * Joining n two-character groups gives 3n - 1 characters: group k at
   * 3k and 3k + 1, and ':' at every position 3k + 2.
   */
  lemma {:induction false} JoinChars(gs: seq<string>)
    requires |gs| >= 1 && forall k :: 0 <= k < |gs| ==> |gs[k]| == 2
    ensures |Join(gs)| == 3 * |gs| - 1
    ensures forall i :: 0 <= i < |Join(gs)| ==> Join(gs)[i] == if i % 3 == 2 then ':' else gs[i / 3][i % 3]
    decreases |gs|
  {
    if |gs| > 1 {
      JoinChars(gs[1..]);
      var s, r := Join(gs), Join(gs[1..]);
      forall i | 3 <= i < |s|
        ensures s[i] == if i % 3 == 2 then ':' else gs[i / 3][i % 3]
      {
        assert s[i] == r[i - 3];
        assert (i - 3) / 3 == i / 3 - 1 && (i - 3) % 3 == i % 3;
      }
    }
  }

  /**
   * The shape of the text mac2str prints: 17 characters, ':' at positions
   * 2, 5, 8, 11 and 14, and an upper-case hexadecimal digit everywhere else.
   */
  predicate IsCanonical(s: string) {
    |s| == MacTextLength && forall i :: 0 <= i < |s| ==> if i % 3 == 2 then s[i] == ':' else IsUpperHex(s[i])
  }

  /** The text "%02X:%02X:%02X:%02X:%02X:%02X" prints for the six bytes of m. */
  function MacToString(m: seq<uint8>): (s: string)
    requires |m| == 6
    ensures |s| == MacTextLength
  {
    JoinChars(HexGroups(m));
    Join(HexGroups(m))
  }

  /**
   * mac2str's layout: byte k is printed as two upper-case digits at 3k and
   * 3k + 1, and the five separators are ':'.
   */
  lemma MacToStringShape(m: seq<uint8>)
    requires |m| == 6
    ensures IsCanonical(MacToString(m))
    ensures forall k :: 0 <= k < 6 ==> MacToString(m)[3 * k..3 * k + 2] == Hex2(m[k])
  {
    MacToStringCanonical(m);
    MacToStringGroups(m);
  }

  lemma MacToStringCanonical(m: seq<uint8>)
    requires |m| == 6
    ensures IsCanonical(MacToString(m))
  {
    var gs, s := HexGroups(m), MacToString(m);
    JoinChars(gs);
    forall i | 0 <= i < |s| && i % 3 != 2
      ensures IsUpperHex(s[i])
    {
      var h := Hex2(m[i / 3]);
      assert s[i] == h[i % 3];
    }
  }

  lemma MacToStringGroups(m: seq<uint8>)
    requires |m| == 6
    ensures forall k :: 0 <= k < 6 ==> MacToString(m)[3 * k..3 * k + 2] == Hex2(m[k])
  {
    var gs, s := HexGroups(m), MacToString(m);
    JoinChars(gs);
    forall k | 0 <= k < 6
      ensures s[3 * k..3 * k + 2] == Hex2(m[k])
    {
      assert (3 * k) / 3 == k && (3 * k) % 3 == 0 && (3 * k + 1) / 3 == k && (3 * k + 1) % 3 == 1;
      assert s[3 * k] == gs[k][0] && s[3 * k + 1] == gs[k][1];
    }
  }

  /**
   * mac2str: when mac and buffer are both non-null, snprintf(buffer, 18, ...) writes
   * the 17 characters and a NUL and buffer is returned; otherwise NULL is
   * returned and nothing is written.
   */
  method Mac2Str(mac: array?<uint8>, buffer: array?<char>) returns (r: array?<char>)
    requires mac != null ==> mac.Length >= 6
    requires buffer != null ==> buffer.Length >= MacTextLength + 1
    modifies buffer
    ensures mac == null || buffer == null ==> r == null
    ensures (mac == null || buffer == null) && buffer != null ==> buffer[..] == old(buffer[..])
    ensures mac != null && buffer != null ==>
      r == buffer
      && buffer[..MacTextLength + 1] == MacToString(old(mac[..6])) + ['\0']
      && buffer[MacTextLength + 1..] == old(buffer[MacTextLength + 1..])
  {
    if mac != null && buffer != null {
      var text := MacToString(mac[..6]) + ['\0'];
      forall i | 0 <= i < MacTextLength + 1 {
        buffer[i] := text[i];
      }
      assert buffer[..MacTextLength + 1] == text;
      return buffer;
    }
    return null;
  }

  /** *p for a C string held as s: the terminating NUL, and anything past it, reads as '\0'. */
  function Peek(s: string, p: nat): char {
    if p < |s| then s[p] else '\0'
  }

  /**
   * What str2mac leaves behind: the bytes it stored in macBytes, in order
   * from macBytes[0], and whether it returned macBytes (ok) or NULL.
   */
  datatype ParseOutcome = ParseOutcome(stored: seq<uint8>, ok: bool)

  /**
   * After the first digit of octet i, str2mac reads a second digit unless the
   * next character ends the octet: ':' before the last octet, NUL or white
   * space after it.
   */
  predicate TwoDigits(i: nat, c: char) {
    (i < 5 && c != ':') || (i == 5 && c != '\0' && !IsSpace(c))
  }

  /**
   * Only octets 0 to 5 read a second character; a hex digit there always
   * continues the octet, and an octet ends after one digit only at ':', NUL
   * or white space.
   */
  lemma OctetEnds(i: nat, c: char)
    ensures TwoDigits(i, c) ==> i <= 5
    ensures i <= 5 && IsHexChar(c) ==> TwoDigits(i, c)
    ensures i <= 5 && !TwoDigits(i, c) ==> c == ':' || c == '\0' || IsSpace(c)
  {
  }

  /**
   * One pass of str2mac's loop per octet, reading s from position p on, with
   * the octets stored so far. An octet is one hex digit followed by ':' (or,
   * for the last octet, by NUL or white space), or two hex digits followed
   * by ':' (the last octet's second digit may be followed by anything).
   * Either case is accepted. Failure stops at once and keeps what was stored.
   */
  function Scan(s: string, p: nat, stored: seq<uint8>): (r: ParseOutcome)
    requires |stored| <= 6
    ensures |stored| <= |r.stored| <= 6
    ensures r.ok <==> |r.stored| == 6
    decreases 6 - |stored|
  {
    if |stored| == 6 then ParseOutcome(stored, true)
    else
      var i := |stored|;
      var c1 := ToLower(Peek(s, p));
      if !IsLowerHex(c1) then ParseOutcome(stored, false)
      else
        var c2 := ToLower(Peek(s, p + 1));
        if TwoDigits(i, c2) then
          if !IsLowerHex(c2) || (i < 5 && Peek(s, p + 2) != ':') then ParseOutcome(stored, false)
          else Scan(s, p + 3, stored + [ByteOf(LowerHexValue(c1) * 16 + LowerHexValue(c2))])
        else Scan(s, p + 2, stored + [ByteOf(LowerHexValue(c1))])
  }

  /** Scanning never takes back a stored byte: what was stored is a prefix of the outcome. */
  lemma {:induction false} ScanKeepsStored(s: string, p: nat, stored: seq<uint8>)
    requires |stored| <= 6
    ensures stored <= Scan(s, p, stored).stored
    decreases 6 - |stored|
  {
    if |stored| < 6 {
      var c1, c2 := ToLower(Peek(s, p)), ToLower(Peek(s, p + 1));
      if IsLowerHex(c1) {
        if TwoDigits(|stored|, c2) {
          if IsLowerHex(c2) && !(|stored| < 5 && Peek(s, p + 2) != ':') {
            var next := stored + [ByteOf(LowerHexValue(c1) * 16 + LowerHexValue(c2))];
            ScanKeepsStored(s, p + 3, next);
          }
        } else {
          var next := stored + [ByteOf(LowerHexValue(c1))];
          ScanKeepsStored(s, p + 2, next);
        }
      }
    }
  }

  /** str2mac on the whole text s. */
  function ParseMac(s: string): (r: ParseOutcome)
    ensures |r.stored| <= 6
    ensures r.ok <==> |r.stored| == 6
  {
    Scan(s, 0, [])
  }

  /**
   * The body of str2mac's loop up to the store, for octet i read
   * from position p: one hex digit, then a second one unless a ':' (or, for
   * the last octet, the end or white space) follows, then the separator
   * check. ok is false where str2mac returns NULL; otherwise value is the
   * octet and next is the position of the character after it, which the
   * loop skips.
   */
  method ReadOctet(s: string, p: nat, i: nat, ghost stored: seq<uint8>) returns (ok: bool, value: nat, next: nat)
    requires i < 6 && |stored| == i
    ensures !ok ==> Scan(s, p, stored) == ParseOutcome(stored, false)
    ensures ok ==> value < 256 && Scan(s, p, stored) == Scan(s, next + 1, stored + [ByteOf(value)])
  {
    var q := p;
    var ch := ToLower(Peek(s, q));
    q := q + 1;
    if !IsLowerHex(ch) {
      return false, 0, q;
    }
    var iNumber := LowerHexValue(ch);
    ch := ToLower(Peek(s, q));
    if (i < 5 && ch != ':') || (i == 5 && ch != '\0' && !IsSpace(ch)) {
      q := q + 1;
      if !IsLowerHex(ch) {
        return false, 0, q;
      }
      iNumber := iNumber * 16 + LowerHexValue(ch);
      ch := Peek(s, q);
      if i < 5 && ch != ':' {
        return false, 0, q;
      }
    }
    return true, iNumber, q;
  }

  /**
   * str2mac: parses s into macBytes[0..6]. Octets are written one at a time,
   * so a failure part-way leaves the octets before it written.
   */
  method Str2Mac(s: string, macBytes: array<uint8>) returns (r: array?<uint8>)
    requires macBytes.Length >= 6
    modifies macBytes
    ensures var out := ParseMac(s);
      (if out.ok then r == macBytes else r == null)
      && macBytes[..] == out.stored + old(macBytes[..])[|out.stored|..]
  {
    var p := 0;
    var i := 0;
    ghost var stored: seq<uint8> := [];
    ghost var initial := macBytes[..];
    ghost var out := ParseMac(s);
    while i < 6
      invariant 0 <= i <= 6 && |stored| == i
      invariant Scan(s, p, stored) == out
      invariant macBytes[..] == stored + initial[i..]
    {
      var ok, iNumber, next := ReadOctet(s, p, i, stored);
      if !ok {
        return null;
      }
      ghost var before := macBytes[..];
      macBytes[i] := ByteOf(iNumber);
      StoreNext(before, macBytes[..], stored, initial[i..], ByteOf(iNumber));
      stored := stored + [ByteOf(iNumber)];
      p := next + 1;
      i := i + 1;
    }
    return macBytes;
  }

  /** Overwriting the first value after a prefix extends the prefix. */
  lemma StoreNext(before: seq<uint8>, after: seq<uint8>, prefix: seq<uint8>, rest: seq<uint8>, v: uint8)
    requires before == prefix + rest && |rest| > 0 && after == before[|prefix| := v]
    ensures after == (prefix + [v]) + rest[1..]
  {
  }

  // ---------------------------------------------------------------------
  // The text str2mac accepts, stated as a grammar.

  /** The value of one hexadecimal digit of either case. */
  function HexValue(c: char): (v: nat)
    requires IsHexChar(c)
    ensures v < 16
  {
    LowerHexValue(ToLower(c))
  }

  /** One octet of the text: one or two hexadecimal digits of either case. */
  predicate IsGroup(g: string) {
    (|g| == 1 || |g| == 2) && forall k :: 0 <= k < |g| ==> IsHexChar(g[k])
  }

  /** The number an octet's digits spell, high digit first. */
  function GroupValue(g: string): (v: nat)
    requires IsGroup(g)
    ensures v < 256
  {
    if |g| == 1 then HexValue(g[0]) else HexValue(g[0]) * 16 + HexValue(g[1])
  }

  /** The bytes a list of octets spells. */
  function Values(gs: seq<string>): (bs: seq<uint8>)
    requires forall k :: 0 <= k < |gs| ==> IsGroup(gs[k])
    ensures |bs| == |gs|
  {
    if |gs| == 0 then [] else [ByteOf(GroupValue(gs[0]))] + Values(gs[1..])
  }

  /**
   * What may follow the last octet: anything after two digits; after a
   * single digit, only the end of the string or white space.
   */
  predicate EndsLastOctet(g: string, t: string) {
    |g| == 2 || Peek(t, 0) == '\0' || IsSpace(Peek(t, 0))
  }

  /** Six octets joined with ':' and followed by text t that may end the last one. */
  predicate WellFormed(gs: seq<string>, t: string) {
    |gs| == 6 && (forall k :: 0 <= k < 6 ==> IsGroup(gs[k])) && EndsLastOctet(gs[5], t)
  }

  /** Reading position p + j of s is reading position j of the suffix u at p. */
  lemma PeekSuffix(s: string, p: nat, u: string, j: nat)
    requires p <= |s| && s[p..] == u
    ensures Peek(s, p + j) == Peek(u, j)
  {
  }

  /** The characters after the first |a| of a + b are those of b. */
  lemma PeekAppend(a: string, b: string, j: nat)
    ensures Peek(a + b, |a| + j) == Peek(b, j)
  {
  }

  /** Scanning the last octet of a well-formed text stores its value and succeeds. */
  lemma ScanAcceptsLast(s: string, p: nat, g: string, t: string, stored: seq<uint8>)
    requires |stored| == 5 && IsGroup(g) && EndsLastOctet(g, t)
    requires p <= |s| && s[p..] == g + t
    ensures Scan(s, p, stored) == ParseOutcome(stored + [ByteOf(GroupValue(g))], true)
  {
    PeekSuffix(s, p, g + t, 0);
    PeekSuffix(s, p, g + t, 1);
    if |g| == 1 {
      PeekAppend(g, t, 0);
    } else {
      assert Peek(s, p + 1) == g[1];
    }
  }

  /** Scanning an octet followed by ':' stores its value and continues after the ':'. */
  lemma ScanAcceptsInner(s: string, p: nat, g: string, u: string, stored: seq<uint8>)
    requires |stored| < 5 && IsGroup(g)
    requires p <= |s| && s[p..] == g + ":" + u
    ensures p + |g| + 1 <= |s| && s[p + |g| + 1..] == u
    ensures Scan(s, p, stored) == Scan(s, p + |g| + 1, stored + [ByteOf(GroupValue(g))])
  {
    assert s[p..][|g| + 1..] == u;
    PeekSuffix(s, p, g + ":" + u, 0);
    PeekSuffix(s, p, g + ":" + u, 1);
    if |g| == 1 {
      assert Peek(s, p + 1) == ':';
    } else {
      assert Peek(s, p + 1) == g[1];
      PeekSuffix(s, p, g + ":" + u, 2);
      assert Peek(s, p + 2) == ':';
    }
  }

  /** A text of several octets is the first, a ':', and the rest. */
  lemma JoinCons(gs: seq<string>, t: string)
    requires |gs| > 1
    ensures Join(gs) + t == gs[0] + ":" + (Join(gs[1..]) + t)
  {
  }

  /** Storing the first octet's byte and then the rest's is storing all of them. */
  lemma StoreFirst(stored: seq<uint8>, gs: seq<string>)
    requires 1 <= |gs| && forall k :: 0 <= k < |gs| ==> IsGroup(gs[k])
    ensures stored + [ByteOf(GroupValue(gs[0]))] + Values(gs[1..]) == stored + Values(gs)
  {
  }

  /** Completeness, from any octet on: the rest of a well-formed text is accepted. */
  lemma {:induction false} ScanAccepts(s: string, p: nat, gs: seq<string>, t: string, stored: seq<uint8>)
    requires 1 <= |gs| && |stored| + |gs| == 6
    requires (forall k :: 0 <= k < |gs| ==> IsGroup(gs[k])) && EndsLastOctet(gs[|gs| - 1], t)
    requires p <= |s| && s[p..] == Join(gs) + t
    ensures Scan(s, p, stored) == ParseOutcome(stored + Values(gs), true)
    decreases |gs|
  {
    if |gs| == 1 {
      ScanAcceptsLast(s, p, gs[0], t, stored);
    } else {
      var next := AcceptsFirst(s, p, gs, t, stored);
      ScanAccepts(s, next, gs[1..], t, stored + [ByteOf(GroupValue(gs[0]))]);
      StoreFirst(stored, gs);
    }
  }

  /** After the first of several octets, the rest of the text is the remaining octets joined. */
  lemma AcceptsFirst(s: string, p: nat, gs: seq<string>, t: string, stored: seq<uint8>) returns (next: nat)
    requires 1 < |gs| && |stored| + |gs| == 6
    requires (forall k :: 0 <= k < |gs| ==> IsGroup(gs[k])) && EndsLastOctet(gs[|gs| - 1], t)
    requires p <= |s| && s[p..] == Join(gs) + t
    ensures next <= |s| && s[next..] == Join(gs[1..]) + t
    ensures (forall k :: 0 <= k < |gs[1..]| ==> IsGroup(gs[1..][k])) && EndsLastOctet(gs[1..][|gs[1..]| - 1], t)
    ensures Scan(s, p, stored) == Scan(s, next, stored + [ByteOf(GroupValue(gs[0]))])
  {
    JoinCons(gs, t);
    ScanAcceptsInner(s, p, gs[0], Join(gs[1..]) + t, stored);
    next := p + |gs[0]| + 1;
  }

  /** Completeness: str2mac accepts every well-formed text and stores the octets it spells. */
  lemma ParseMacAccepts(gs: seq<string>, t: string)
    requires WellFormed(gs, t)
    ensures ParseMac(Join(gs) + t) == ParseOutcome(Values(gs), true)
  {
    ScanAccepts(Join(gs) + t, 0, gs, t, []);
  }

  /** Octets each followed by ':', as the text before a rejected octet reads. */
  function JoinColon(gs: seq<string>): string {
    if |gs| == 0 then "" else gs[0] + ":" + JoinColon(gs[1..])
  }

  /** A scan that meets a character that is not a hex digit stops there and fails. */
  lemma ScanStops(s: string, p: nat, u: string, stored: seq<uint8>)
    requires |stored| < 6 && p <= |s| && s[p..] == u && !IsHexChar(Peek(u, 0))
    ensures Scan(s, p, stored) == ParseOutcome(stored, false)
  {
    PeekSuffix(s, p, u, 0);
  }

  /**
   * Partial writes, from any octet on: when fewer than six octets, each
   * followed by ':', are followed by a character that is not a hex digit,
   * the parse fails there with those octets' bytes already stored.
   */
  lemma {:induction false} ScanPartial(s: string, p: nat, gs: seq<string>, u: string, stored: seq<uint8>)
    requires |stored| + |gs| < 6 && forall k :: 0 <= k < |gs| ==> IsGroup(gs[k])
    requires p <= |s| && s[p..] == JoinColon(gs) + u
    requires !IsHexChar(Peek(u, 0))
    ensures Scan(s, p, stored) == ParseOutcome(stored + Values(gs), false)
    decreases |gs|
  {
    if |gs| == 0 {
      ScanStops(s, p, u, stored);
      assert stored + Values(gs) == stored;
    } else {
      var next := PartialFirst(s, p, gs, u, stored);
      ScanPartial(s, next, gs[1..], u, stored + [ByteOf(GroupValue(gs[0]))]);
    }
  }

  /** The first octet of a partial text is stored and the scan moves past its ':'. */
  lemma PartialFirst(s: string, p: nat, gs: seq<string>, u: string, stored: seq<uint8>) returns (next: nat)
    requires 1 <= |gs| && |stored| + |gs| < 6 && forall k :: 0 <= k < |gs| ==> IsGroup(gs[k])
    requires p <= |s| && s[p..] == JoinColon(gs) + u
    ensures next <= |s| && s[next..] == JoinColon(gs[1..]) + u
    ensures Scan(s, p, stored) == Scan(s, next, stored + [ByteOf(GroupValue(gs[0]))])
    ensures stored + [ByteOf(GroupValue(gs[0]))] + Values(gs[1..]) == stored + Values(gs)
  {
    var rest := JoinColon(gs[1..]) + u;
    assert s[p..] == gs[0] + ":" + rest by {
      assert JoinColon(gs) + u == gs[0] + ":" + rest;
    }
    ScanAcceptsInner(s, p, gs[0], rest, stored);
    next := p + |gs[0]| + 1;
    StoreFirst(stored, gs);
  }

  /**
   * str2mac fails on a text whose first few octets are well formed but whose
   * next octet does not start with a hex digit, and leaves those octets'
   * bytes written.
   */
  lemma ParseMacPartial(gs: seq<string>, u: string)
    requires |gs| < 6 && forall k :: 0 <= k < |gs| ==> IsGroup(gs[k])
    requires !IsHexChar(Peek(u, 0))
    ensures ParseMac(JoinColon(gs) + u) == ParseOutcome(Values(gs), false)
  {
    ScanPartial(JoinColon(gs) + u, 0, gs, u, []);
  }

  /** tolower leaves every character that is not an upper-case letter alone, so these come back unchanged. */
  lemma ToLowerFixed(c: char)
    ensures ToLower(c) == '\0' ==> c == '\0'
    ensures ToLower(c) == ':' ==> c == ':'
    ensures IsSpace(ToLower(c)) ==> IsSpace(c) && ToLower(c) == c
  {
  }

  /** An accepted two-digit octet: two hex digits, then ':' unless it is the last. */
  lemma SoundTwoDigits(s: string, p: nat, stored: seq<uint8>)
    requires |stored| < 6 && p <= |s| && Scan(s, p, stored).ok
    requires TwoDigits(|stored|, ToLower(Peek(s, p + 1)))
    ensures p + 2 <= |s| && IsGroup(s[p..p + 2])
    ensures |stored| < 5 ==> p + 3 <= |s| && s[p + 2] == ':'
    ensures Scan(s, p, stored) == Scan(s, p + 3, stored + [ByteOf(GroupValue(s[p..p + 2]))])
  {
  }

  /** An accepted one-digit octet: one hex digit, then ':', or the end or white space after the last. */
  lemma SoundOneDigit(s: string, p: nat, stored: seq<uint8>)
    requires |stored| < 6 && p <= |s| && Scan(s, p, stored).ok
    requires !TwoDigits(|stored|, ToLower(Peek(s, p + 1)))
    ensures p + 1 <= |s| && IsGroup(s[p..p + 1])
    ensures |stored| < 5 ==> p + 2 <= |s| && s[p + 1] == ':'
    ensures |stored| == 5 ==> Peek(s, p + 1) == '\0' || IsSpace(Peek(s, p + 1))
    ensures Scan(s, p, stored) == Scan(s, p + 2, stored + [ByteOf(GroupValue(s[p..p + 1]))])
  {
    ToLowerFixed(Peek(s, p + 1));
  }

  /** A suffix with ':' at offset k is the k characters before it, the ':', and the rest. */
  lemma SplitAtColon(s: string, p: nat, k: nat)
    requires p + k + 1 <= |s| && s[p + k] == ':'
    ensures s[p..] == s[p..p + k] + ":" + s[p + k + 1..]
  {
  }

  /** Joining one more octet in front of at least one. */
  lemma JoinFront(g: string, gs: seq<string>, t: string)
    requires |gs| >= 1
    ensures Join([g] + gs) + t == g + ":" + (Join(gs) + t)
  {
    assert ([g] + gs)[1..] == gs;
  }

  /** An accepted octet: its width, its digits, and what follows them. */
  lemma AcceptedOctet(s: string, p: nat, stored: seq<uint8>) returns (width: nat)
    requires |stored| < 6 && p <= |s| && Scan(s, p, stored).ok
    ensures (width == 1 || width == 2) && p + width <= |s| && IsGroup(s[p..p + width])
    ensures |stored| < 5 ==> p + width + 1 <= |s| && s[p + width] == ':'
    ensures |stored| == 5 ==> EndsLastOctet(s[p..p + width], s[p + width..])
    ensures Scan(s, p, stored) == Scan(s, p + width + 1, stored + [ByteOf(GroupValue(s[p..p + width]))])
  {
    if TwoDigits(|stored|, ToLower(Peek(s, p + 1))) {
      SoundTwoDigits(s, p, stored);
      width := 2;
    } else {
      SoundOneDigit(s, p, stored);
      width := 1;
      assert Peek(s[p + 1..], 0) == Peek(s, p + 1);
    }
  }

  /**
   * Soundness, from any octet on: when the rest of s is accepted, it is
   * made of well-formed octets and the stored bytes are theirs.
   */
  lemma {:induction false} ScanSound(s: string, p: nat, stored: seq<uint8>) returns (gs: seq<string>, t: string)
    requires |stored| < 6 && p <= |s| && Scan(s, p, stored).ok
    ensures |stored| + |gs| == 6 && 1 <= |gs|
    ensures (forall k :: 0 <= k < |gs| ==> IsGroup(gs[k])) && EndsLastOctet(gs[|gs| - 1], t)
    ensures s[p..] == Join(gs) + t
    ensures Scan(s, p, stored).stored == stored + Values(gs)
    decreases 6 - |stored|
  {
    var width := AcceptedOctet(s, p, stored);
    var g := s[p..p + width];
    if |stored| == 5 {
      gs, t := [g], s[p + width..];
      SoundLast(s, p, width, stored);
    } else {
      var gs', t' := ScanSound(s, p + width + 1, stored + [ByteOf(GroupValue(g))]);
      gs, t := [g] + gs', t';
      SoundFront(s, p, width, stored, gs', t');
    }
  }

  /** The accepted last octet is all that is left to store. */
  lemma SoundLast(s: string, p: nat, width: nat, stored: seq<uint8>)
    requires |stored| == 5 && p + width <= |s| && IsGroup(s[p..p + width])
    requires Scan(s, p, stored) == Scan(s, p + width + 1, stored + [ByteOf(GroupValue(s[p..p + width]))])
    ensures s[p..] == Join([s[p..p + width]]) + s[p + width..]
    ensures Scan(s, p, stored).stored == stored + Values([s[p..p + width]])
  {
    var g := s[p..p + width];
    assert Values([g]) == [ByteOf(GroupValue(g))];
  }

  /** One more accepted octet in front of an accepted rest. */
  lemma SoundFront(s: string, p: nat, width: nat, stored: seq<uint8>, gs': seq<string>, t': string)
    requires |stored| < 5 && p + width + 1 <= |s| && s[p + width] == ':' && IsGroup(s[p..p + width])
    requires |stored| + 1 + |gs'| == 6 && 1 <= |gs'| && forall k :: 0 <= k < |gs'| ==> IsGroup(gs'[k])
    requires s[p + width + 1..] == Join(gs') + t'
    requires Scan(s, p, stored).stored == stored + [ByteOf(GroupValue(s[p..p + width]))] + Values(gs')
    ensures var gs := [s[p..p + width]] + gs';
      (forall k :: 0 <= k < |gs| ==> IsGroup(gs[k]))
      && s[p..] == Join(gs) + t'
      && Scan(s, p, stored).stored == stored + Values(gs)
  {
    var g := s[p..p + width];
    var gs := [g] + gs';
    SplitAtColon(s, p, width);
    JoinFront(g, gs', t');
    StoreFirst(stored, gs);
    assert gs[1..] == gs';
  }

  /** Soundness: every text str2mac accepts is well formed, and the bytes it stores are the ones the octets spell. */
  lemma ParseMacSound(s: string) returns (gs: seq<string>, t: string)
    requires ParseMac(s).ok
    ensures WellFormed(gs, t) && s == Join(gs) + t && ParseMac(s).stored == Values(gs)
  {
    gs, t := ScanSound(s, 0, []);
  }

  /** Each stored byte is the value of its octet. */
  lemma {:induction false} ValuesAt(gs: seq<string>)
    requires forall k :: 0 <= k < |gs| ==> IsGroup(gs[k])
    ensures forall k :: 0 <= k < |gs| ==> Values(gs)[k] == ByteOf(GroupValue(gs[k]))
  {
    if |gs| > 0 {
      ValuesAt(gs[1..]);
    }
  }

  /**
   * Round trip: str2mac reads back the six bytes from the text mac2str
   * prints, whatever follows that text in the buffer.
   */
  lemma MacRoundTrip(m: seq<uint8>, t: string)
    requires |m| == 6
    ensures ParseMac(MacToString(m) + t) == ParseOutcome(m, true)
  {
    var gs := HexGroups(m);
    forall k | 0 <= k < 6
      ensures IsGroup(gs[k]) && GroupValue(gs[k]) == m[k] as int
    {
      UpperHexDigitOfValue(gs[k][0]);
      UpperHexDigitOfValue(gs[k][1]);
    }
    ParseMacAccepts(gs, t);
    ValuesAt(gs);
    forall k | 0 <= k < 6
      ensures Values(gs)[k] == m[k]
    {
      ByteOfValue(m[k]);
    }
  }

  /** Different addresses print differently. */
  lemma MacToStringInjective(a: seq<uint8>, b: seq<uint8>)
    requires |a| == 6 && |b| == 6 && MacToString(a) == MacToString(b)
    ensures a == b
  {
    MacRoundTrip(a, []);
    MacRoundTrip(b, []);
    assert MacToString(a) + [] == MacToString(b) + [];
  }

  /** Dashes are not separators: the parse fails before storing anything. */
  lemma ParseMacRejectsDashes()
    ensures ParseMac("5C-CF-7F-80-A1-0B") == ParseOutcome([], false)
  {
  }

  /** The six two-character octets of a canonical text. */
  function CanonicalGroups(s: string): (gs: seq<string>)
    requires IsCanonical(s)
    ensures |gs| == 6 && forall k :: 0 <= k < 6 ==> gs[k] == s[3 * k..3 * k + 2]
  {
    seq(6, k requires 0 <= k < 6 => s[3 * k..3 * k + 2])
  }

  /** A canonical text is its octets joined with ':'. */
  lemma CanonicalIsJoin(s: string)
    requires IsCanonical(s)
    ensures Join(CanonicalGroups(s)) == s
  {
    var gs := CanonicalGroups(s);
    JoinChars(gs);
    forall i | 0 <= i < |s|
      ensures Join(gs)[i] == s[i]
    {
      assert gs[i / 3] == s[3 * (i / 3)..3 * (i / 3) + 2];
    }
  }

  /** str2mac accepts a canonical text and stores the octets it spells. */
  lemma CanonicalParses(s: string)
    requires IsCanonical(s)
    ensures forall k :: 0 <= k < 6 ==> IsGroup(CanonicalGroups(s)[k])
    ensures ParseMac(s) == ParseOutcome(Values(CanonicalGroups(s)), true)
  {
    var gs := CanonicalGroups(s);
    CanonicalIsJoin(s);
    forall k | 0 <= k < 6
      ensures IsGroup(gs[k])
    {
      assert gs[k][0] == s[3 * k] && gs[k][1] == s[3 * k + 1];
      UpperHexDigitOfValue(gs[k][0]);
      UpperHexDigitOfValue(gs[k][1]);
    }
    assert Join(gs) + "" == s;
    ParseMacAccepts(gs, "");
  }

  /** Printing the bytes a canonical text's octets spell gives the octets back. */
  lemma CanonicalGroupsReprinted(s: string)
    requires IsCanonical(s) && forall k :: 0 <= k < 6 ==> IsGroup(CanonicalGroups(s)[k])
    ensures HexGroups(Values(CanonicalGroups(s))) == CanonicalGroups(s)
  {
    var gs := CanonicalGroups(s);
    ValuesAt(gs);
    var bs := Values(gs);
    forall k | 0 <= k < 6
      ensures HexGroups(bs)[k] == gs[k]
    {
      assert gs[k][0] == s[3 * k] && gs[k][1] == s[3 * k + 1];
      assert (3 * k) % 3 == 0 && (3 * k + 1) % 3 == 1;
      GroupReprinted(gs[k]);
      assert HexGroups(bs)[k] == Hex2(bs[k]);
    }
  }

  /** Printing the byte an upper-case two-digit octet spells gives the octet. */
  lemma GroupReprinted(g: string)
    requires |g| == 2 && IsUpperHex(g[0]) && IsUpperHex(g[1])
    ensures IsGroup(g) && Hex2(ByteOf(GroupValue(g))) == g
  {
    UpperHexDigitOfValue(g[0]);
    UpperHexDigitOfValue(g[1]);
    assert IsGroup(g);
    assert GroupValue(g) == HexValue(g[0]) * 16 + HexValue(g[1]);
    Hex2OfDigits(g[0], g[1]);
    assert g == [g[0], g[1]];
  }

  /**
   * Converse round trip: str2mac accepts every text shaped like mac2str's
   * output, and printing the bytes it stores gives the text back.
   */
  lemma CanonicalRoundTrip(s: string)
    requires IsCanonical(s)
    ensures ParseMac(s).ok && MacToString(ParseMac(s).stored) == s
  {
    CanonicalParses(s);
    CanonicalGroupsReprinted(s);
    CanonicalIsJoin(s);
  }
}
