/** Which subnet strings Go's `net.ParseCIDR` accepts: an address, a slash
    and a decimal prefix length. The address is a dotted quad for IPv4, or
    colon-separated hexadecimal fields with at most one "::" and an optional
    dotted-quad tail for IPv6, as Go's address parser reads them. Its role in
    the model is to say where the subnet wrappers' parse succeeds, and to keep
    the two families from sharing a string, since both live in one trie. */
module Cidr {
  predicate IsDigit(c: char) {
    '0' <= c <= '9'
  }

  predicate IsHexDigit(c: char) {
    IsDigit(c) || 'a' <= c <= 'f' || 'A' <= c <= 'F'
  }

  predicate AllDigits(s: string) {
    forall i | 0 <= i < |s| :: IsDigit(s[i])
  }

  /** The value of a string of decimal digits. */
  function DecimalValue(s: string): nat
    requires AllDigits(s)
  {
    if s == [] then 0 else DecimalValue(s[..|s| - 1]) * 10 + (s[|s| - 1] as int - '0' as int)
  }

  /** One byte of a dotted quad: one to three digits, no leading zero, at most 255. */
  predicate Octet(s: string) {
    0 < |s| <= 3 && AllDigits(s) && (|s| > 1 ==> s[0] != '0') && DecimalValue(s) <= 255
  }

  /** The index of the first `c` in `s`, or `|s|` when there is none. */
  function IndexOf(s: string, c: char): (i: nat)
    ensures i <= |s| && (i < |s| ==> s[i] == c)
    ensures forall j | 0 <= j < i :: s[j] != c
  {
    if s == [] then 0
    else if s[0] == c then 0
    else 1 + IndexOf(s[1..], c)
  }

  /** The pieces of `a` between its `sep` characters. */
  function Split(a: string, sep: char): (pieces: seq<string>)
    ensures |pieces| >= 1
    decreases |a|
  {
    var i := IndexOf(a, sep);
    if i == |a| then [a] else [a[..i]] + Split(a[i + 1..], sep)
  }

  /** A dotted quad: four octets separated by dots. */
  predicate V4Address(a: string) {
    var pieces := Split(a, '.');
    |pieces| == 4 && forall k | 0 <= k < 4 :: Octet(pieces[k])
  }

  /** The index of the first "::" in `s`, or `|s|` when there is none. */
  function IndexOfPair(s: string): (i: nat)
    ensures i <= |s| && (i < |s| ==> i + 1 < |s| && s[i] == ':' && s[i + 1] == ':')
    ensures forall j | 0 <= j < i && j + 1 < |s| :: s[j] != ':' || s[j + 1] != ':'
  {
    if |s| < 2 then |s|
    else if s[0] == ':' && s[1] == ':' then 0
    else 1 + IndexOfPair(s[1..])
  }

  /** One 16-bit field of an IPv6 address: one to four hexadecimal digits. */
  predicate HexField(g: string) {
    0 < |g| <= 4 && forall i | 0 <= i < |g| :: IsHexDigit(g[i])
  }

  /** A run of fields separated by single colons. Every field is hexadecimal,
      except that the last may be a dotted quad when `tail` allows it. */
  predicate Fields(a: string, tail: bool) {
    var pieces := Split(a, ':');
    && (forall k | 0 <= k < |pieces| - 1 :: HexField(pieces[k]))
    && (HexField(pieces[|pieces| - 1]) || (tail && V4Address(pieces[|pieces| - 1])))
  }

  /** How many 16-bit fields a run fills: a dotted quad fills two. */
  function Width(a: string): nat {
    if a == [] then 0
    else
      var pieces := Split(a, ':');
      |pieces| + (if V4Address(pieces[|pieces| - 1]) then 1 else 0)
  }

  /** An IPv6 address without a zone, as Go's address parser reads it. Without
      "::" the fields fill exactly eight 16-bit fields. With one "::" the
      fields on its two sides fill at most seven, since "::" stands for at
      least one zero field. A dotted quad may only come last, and a second
      "::" leaves an empty field behind and fails. */
  predicate V6Address(a: string) {
    var j := IndexOfPair(a);
    if j == |a| then Fields(a, true) && Width(a) == 8
    else
      var left, right := a[..j], a[j + 2..];
      && (left == [] || Fields(left, false))
      && (right == [] || Fields(right, true))
      && Width(left) + Width(right) <= 7
  }

  /** A prefix length: a non-empty decimal at most `max`. */
  predicate PrefixLength(p: string, max: nat) {
    0 < |p| && AllDigits(p) && DecimalValue(p) <= max
  }

  /** A well-formed IPv4 subnet string: split at its first slash into a
      dotted quad and a prefix length of at most 32. */
  predicate Cidr4(s: string) {
    var i := IndexOf(s, '/');
    i < |s| && V4Address(s[..i]) && PrefixLength(s[i + 1..], 32)
  }

  /** A well-formed IPv6 subnet string: split at its first slash into an IPv6
      address and a prefix length of at most 128. */
  predicate Cidr6(s: string) {
    var i := IndexOf(s, '/');
    i < |s| && V6Address(s[..i]) && PrefixLength(s[i + 1..], 128)
  }

  /** Only digits and dots make up a dotted quad. */
  predicate DigitsAndDots(a: string) {
    forall j | 0 <= j < |a| :: IsDigit(a[j]) || a[j] == '.'
  }

  /** Two fields without "::" are too few for an IPv6 address, so Go's parser
      refuses this subnet string and so does the model. */
  lemma ShortAddressRejected()
    ensures !Cidr6("1:2/64")
  {
    var s := "1:2/64";
    IndexOfAt(s, '/', 3);
    var a := s[..3];
    assert a == "1:2";
    IndexOfPairAt(a, 3);
    IndexOfAt(a, ':', 1);
    assert a[..1] == "1" && a[2..] == "2";
    IndexOfAt("2", ':', 1);
    assert Split(a, ':') == ["1", "2"];
  }

  /** The first `c` is where the characters before it differ from `c`. */
  lemma IndexOfAt(s: string, c: char, i: nat)
    requires i <= |s| && (i < |s| ==> s[i] == c)
    requires forall j | 0 <= j < i :: s[j] != c
    ensures IndexOf(s, c) == i
  {
  }

  /** The first "::" is where no "::" starts before it. */
  lemma IndexOfPairAt(s: string, i: nat)
    requires i <= |s| && (i < |s| ==> i + 1 < |s| && s[i] == ':' && s[i + 1] == ':')
    requires forall j | 0 <= j < i && j + 1 < |s| :: s[j] != ':' || s[j + 1] != ':'
    ensures IndexOfPair(s) == i
  {
  }

  /** A field of five hexadecimal digits does not fit in 16 bits, so Go's
      parser refuses this subnet string and so does the model. */
  lemma LongFieldRejected()
    ensures !Cidr6("12345::/8")
  {
    var s := "12345::/8";
    IndexOfAt(s, '/', 7);
    var a := s[..7];
    assert a == "12345::";
    IndexOfPairAt(a, 5);
    var left := a[..5];
    assert left == "12345";
    IndexOfAt(left, ':', 5);
    assert Split(left, ':') == [left];
  }

  /** A string whose pieces between dots are all digits has only digits and dots. */
  lemma {:induction false} SplitDotsChars(a: string)
    requires forall k | 0 <= k < |Split(a, '.')| :: AllDigits(Split(a, '.')[k])
    ensures DigitsAndDots(a)
    decreases |a|
  {
    var i := IndexOf(a, '.');
    if i < |a| {
      var head, tail := a[..i], a[i + 1..];
      assert Split(a, '.') == [head] + Split(tail, '.');
      assert AllDigits(Split(a, '.')[0]);
      forall k | 0 <= k < |Split(tail, '.')| ensures AllDigits(Split(tail, '.')[k]) {
        assert Split(tail, '.')[k] == Split(a, '.')[k + 1];
      }
      SplitDotsChars(tail);
      forall j | 0 <= j < |a| ensures IsDigit(a[j]) || a[j] == '.' {
        if j < i {
          assert a[j] == head[j];
        } else if j > i {
          assert a[j] == tail[j - i - 1];
        }
      }
    } else {
      assert AllDigits(Split(a, '.')[0]);
    }
  }

  /** A string split at a slash into digits and dots before it and digits
      after it has no colon. */
  lemma SplitNoColon(s: string, i: nat)
    requires i < |s| && s[i] == '/' && DigitsAndDots(s[..i]) && AllDigits(s[i + 1..])
    ensures ':' !in s
  {
    var addr, prefix := s[..i], s[i + 1..];
    forall j | 0 <= j < |s| ensures s[j] != ':' {
      if j < i {
        assert s[j] == addr[j];
      } else if j > i {
        assert s[j] == prefix[j - i - 1];
      }
    }
  }

  /** An IPv4 subnet string has no colon, an IPv6 one has. */
  lemma Cidr4NoColon(s: string)
    requires Cidr4(s)
    ensures ':' !in s
  {
    var i := IndexOf(s, '/');
    var pieces := Split(s[..i], '.');
    forall k | 0 <= k < |pieces| ensures AllDigits(pieces[k]) {
      assert Octet(pieces[k]);
    }
    SplitDotsChars(s[..i]);
    SplitNoColon(s, i);
  }

  /** A string split into more than one piece contains the separator. */
  lemma SplitHasSep(a: string, sep: char)
    requires |Split(a, sep)| > 1
    ensures sep in a
  {
    var i := IndexOf(a, sep);
    assert i < |a| && a[i] == sep;
  }

  /** Every IPv6 address is written with a colon. */
  lemma V6HasColon(a: string)
    requires V6Address(a)
    ensures ':' in a
  {
    var j := IndexOfPair(a);
    if j == |a| {
      SplitHasSep(a, ':');
    } else {
      assert a[j] == ':';
    }
  }

  /** An IPv6 subnet string has a colon. */
  lemma Cidr6HasColon(s: string)
    requires Cidr6(s)
    ensures ':' in s
  {
    var i := IndexOf(s, '/');
    var addr := s[..i];
    V6HasColon(addr);
    var j :| 0 <= j < |addr| && addr[j] == ':';
    assert s[j] == ':';
  }

  /** The family mark: an IPv6 address is the one written with colons. */
  predicate V6Family(s: string) {
    ':' in s
  }

  /** The two families of subnet strings never share a string. */
  lemma FamiliesDisjoint(s: string)
    ensures Cidr4(s) ==> !V6Family(s)
    ensures Cidr6(s) ==> V6Family(s)
  {
    if Cidr4(s) {
      Cidr4NoColon(s);
    }
    if Cidr6(s) {
      Cidr6HasColon(s);
    }
  }
}
