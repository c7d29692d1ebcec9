/** helpers/net.go: the "address:port" string a node listens on and is known
    by in the ring. */
module NetHelpers {
  import opened Primitives

  const COLON: byte := 58
  const MINUS: byte := 45
  const ZERO_DIGIT: byte := 48

  predicate IsDigit(b: byte)
  {
    ZERO_DIGIT <= b <= ZERO_DIGIT + 9
  }

  /** The decimal digits of `n`, most significant first, with no leading
      zero. */
  function Digits(n: nat): (d: Bytes)
    ensures |d| >= 1
    ensures forall i :: 0 <= i < |d| ==> IsDigit(d[i])
    ensures n > 0 ==> d[0] != ZERO_DIGIT
  {
    if n < 10 then [ZERO_DIGIT + n as byte]
    else Digits(n / 10) + [ZERO_DIGIT + (n % 10) as byte]
  }

  /** strconv.Itoa(p). */
  function Itoa(p: int): (s: Bytes)
    ensures p >= 0 ==> s == Digits(p)
    ensures p < 0 ==> s == [MINUS] + Digits(-p)
  {
    if p >= 0 then Digits(p) else [MINUS] + Digits(-p)
  }

  /** JoinAddressAndPort(address, port). */
  function JoinAddressAndPort(address: Bytes, port: int): (s: Bytes)
    ensures |s| == |address| + 1 + |Itoa(port)|
    ensures s[..|address|] == address && s[|address|] == COLON
    ensures s[|address| + 1..] == Itoa(port)
  {
    address + [COLON] + Itoa(port)
  }

  /** The text after the address holds no colon: digits only for a port
      that is not negative, a minus sign and then digits otherwise. */
  lemma PortText(port: int)
    ensures COLON !in Itoa(port)
    ensures port >= 0 ==> forall i :: 0 <= i < |Itoa(port)| ==> IsDigit(Itoa(port)[i])
    ensures port < 0 ==> Itoa(port)[0] == MINUS && forall i :: 1 <= i < |Itoa(port)| ==> IsDigit(Itoa(port)[i])
  {
    var s := Itoa(port);
    if port < 0 {
      forall i | 1 <= i < |s| ensures IsDigit(s[i]) {
        assert s[i] == Digits(-port)[i - 1];
      }
    }
  }

  // ---------------------------------------------------------------------------
  // Reading the string back

  /** The position of the last `c` in `s`, if any. */
  function LastIndex(s: Bytes, c: byte): (r: Option<nat>)
    ensures r.Some? ==> r.value < |s| && s[r.value] == c && c !in s[r.value + 1..]
    ensures r.None? ==> c !in s
  {
    if s == [] then None
    else if s[|s| - 1] == c then Some(|s| - 1)
    else
      var r := LastIndex(s[..|s| - 1], c);
      assert s == s[..|s| - 1] + [s[|s| - 1]];
      if r.Some? then
        assert s[r.value + 1..] == s[..|s| - 1][r.value + 1..] + [s[|s| - 1]];
        r
      else r
  }

  /** The number a string of decimal digits denotes. */
  function ParseDigits(d: Bytes): nat
  {
    if d == [] then 0
    else ParseDigits(d[..|d| - 1]) * 10 + (if IsDigit(d[|d| - 1]) then (d[|d| - 1] - ZERO_DIGIT) as nat else 0)
  }

  /** strconv.Atoi on what Itoa writes. */
  function ParseInt(s: Bytes): int
  {
    if |s| > 0 && s[0] == MINUS then -(ParseDigits(s[1..]) as int) else ParseDigits(s)
  }

  lemma {:induction false} ParseDigitsOfDigits(n: nat)
    ensures ParseDigits(Digits(n)) == n
  {
    if n >= 10 {
      ParseDigitsOfDigits(n / 10);
      assert Digits(n)[..|Digits(n)| - 1] == Digits(n / 10);
    }
  }

  lemma ParseIntOfItoa(p: int)
    ensures ParseInt(Itoa(p)) == p
  {
    if p >= 0 {
      ParseDigitsOfDigits(p);
      assert Itoa(p)[0] != MINUS by { assert IsDigit(Digits(p)[0]); }
    } else {
      ParseDigitsOfDigits(-p);
      assert Itoa(p)[1..] == Digits(-p);
    }
  }

  /** Splitting at the last colon: the text before it and the number after
      it, as net.SplitHostPort and strconv.Atoi would read them. */
  function SplitAddressAndPort(s: Bytes): (r: Option<(Bytes, int)>)
    ensures r.None? <==> COLON !in s
  {
    match LastIndex(s, COLON)
    case None => None
    case Some(k) => Some((s[..k], ParseInt(s[k + 1..])))
  }

  /** The last `c` of `u + [c] + t` is the one after `u` when `t` holds
      none. */
  lemma {:induction false} LastIndexAfter(u: Bytes, c: byte, t: Bytes)
    requires c !in t
    ensures LastIndex(u + [c] + t, c) == Some(|u|)
    decreases |t|
  {
    var s := u + [c] + t;
    if t != [] {
      var t' := t[..|t| - 1];
      assert s[|s| - 1] == t[|t| - 1] != c;
      assert s[..|s| - 1] == u + [c] + t';
      LastIndexAfter(u, c, t');
    }
  }

  /** The joined string splits back into the address and the port, whatever
      colons the address itself holds. */
  lemma SplitOfJoin(address: Bytes, port: int)
    ensures SplitAddressAndPort(JoinAddressAndPort(address, port)) == Some((address, port))
  {
    var s := JoinAddressAndPort(address, port);
    var k := |address|;
    PortText(port);
    LastIndexAfter(address, COLON, Itoa(port));
    assert s[..k] == address && s[k + 1..] == Itoa(port);
    ParseIntOfItoa(port);
  }
}
