/**
 The `ports` attribute of a `trema_switch { ... }` stanza in the Trema DSL.
 The stanza stores a comma-separated port list in which every port name is
 suffixed with `/` and its 1-based position, so `"eth0,eth1"` is stored as
 `"eth0/1,eth1/2"`.
 */
module TremaSwitch {
  import opened Wrappers
  import Decimal
  import RubyString

  const PORT_SEPARATOR: char := ','
  const INDEX_MARK: char := '/'

  /** A port name followed by `/` and its position in decimal. */
  function Numbered(v: string, n: nat): string {
    v + [INDEX_MARK] + Decimal.Show(n)
  }

  /** Numbers every field with its 1-based position, keeping the order. */
  function WithIndex(fields: seq<string>): seq<string> {
    seq(|fields|, i requires 0 <= i < |fields| => Numbered(fields[i], i + 1))
  }

  /** The value `ports` assigns to `@ports` (and returns). */
  function Ports(ports: string): (stored: string)
    ensures var before, after := RubyString.Split(ports, PORT_SEPARATOR), RubyString.Split(stored, PORT_SEPARATOR);
            && |after| == |before|
            && forall i :: 0 <= i < |before| ==> after[i] == Numbered(before[i], i + 1)
    ensures |stored| == 0 || stored[|stored| - 1] != PORT_SEPARATOR
  {
    NumberedPorts(RubyString.Split(ports, PORT_SEPARATOR));
    RubyString.Join(WithIndex(RubyString.Split(ports, PORT_SEPARATOR)), PORT_SEPARATOR)
  }

  /**
   Comma-free fields, numbered and joined with commas, split back into the
   numbered fields, and the joined string does not end in a comma.
   */
  lemma NumberedPorts(fields: seq<string>)
    requires forall i :: 0 <= i < |fields| ==> PORT_SEPARATOR !in fields[i]
    ensures var stored := RubyString.Join(WithIndex(fields), PORT_SEPARATOR);
            var after := RubyString.Split(stored, PORT_SEPARATOR);
            && |after| == |fields|
            && (forall i :: 0 <= i < |fields| ==> after[i] == Numbered(fields[i], i + 1))
            && (|stored| == 0 || stored[|stored| - 1] != PORT_SEPARATOR)
  {
    NumberedFieldsSplitBack(fields);
    NumberedJoinEndsWithDigit(fields);
  }

  /** Numbered fields joined with commas end with a digit of the last position, never with a comma. */
  lemma NumberedJoinEndsWithDigit(fields: seq<string>)
    ensures var stored := RubyString.Join(WithIndex(fields), PORT_SEPARATOR);
            |stored| == 0 || Decimal.IsDigit(stored[|stored| - 1])
  {
    var numbered := WithIndex(fields);
    if |numbered| > 0 {
      var n := |numbered|;
      var digits := Decimal.Show(n);
      assert numbered[n - 1] == fields[n - 1] + [INDEX_MARK] + digits;
      assert numbered[n - 1][|numbered[n - 1]| - 1] == digits[|digits| - 1];
      RubyString.JoinEndsWithLastPiece(numbered, PORT_SEPARATOR);
    }
  }

  /** The appended `/<n>` adds no comma: the numbered field has exactly the commas of the name. */
  lemma NumberedAddsNoSeparator(v: string, n: nat)
    ensures multiset(Numbered(v, n))[PORT_SEPARATOR] == multiset(v)[PORT_SEPARATOR]
  {
    var digits := Decimal.Show(n);
    assert PORT_SEPARATOR !in digits by {
      forall i | 0 <= i < |digits|
        ensures digits[i] != PORT_SEPARATOR
      {
        assert Decimal.IsDigit(digits[i]);
      }
    }
    assert multiset(Numbered(v, n)) == multiset(v) + multiset{INDEX_MARK} + multiset(digits);
  }

  /** Numbering fields that hold no comma yields non-empty fields that hold no comma, so they split back. */
  lemma NumberedFieldsSplitBack(fields: seq<string>)
    requires forall i :: 0 <= i < |fields| ==> PORT_SEPARATOR !in fields[i]
    ensures RubyString.Split(RubyString.Join(WithIndex(fields), PORT_SEPARATOR), PORT_SEPARATOR) == WithIndex(fields)
  {
    var numbered := WithIndex(fields);
    forall i | 0 <= i < |numbered|
      ensures PORT_SEPARATOR !in numbered[i]
    {
      NumberedAddsNoSeparator(fields[i], i + 1);
      assert multiset(fields[i])[PORT_SEPARATOR] == 0;
    }
    RubyString.SplitJoin(numbered, PORT_SEPARATOR);
  }

  /** A stored field taken apart again: the port name and its position. */
  datatype NumberedPort = NumberedPort(port: string, index: nat)

  /** Position of the last `/` in `s`, if any. */
  function LastIndexMark(s: string): (r: Option<nat>)
    ensures r.Some? ==> r.value < |s| && s[r.value] == INDEX_MARK && INDEX_MARK !in s[r.value + 1..]
    ensures r.None? ==> INDEX_MARK !in s
    decreases |s|
  {
    if |s| == 0 then None
    else if s[|s| - 1] == INDEX_MARK then Some(|s| - 1)
    else
      var r := LastIndexMark(s[..|s| - 1]);
      assert r.Some? ==> s[r.value + 1..] == s[..|s| - 1][r.value + 1..] + [s[|s| - 1]];
      assert s == s[..|s| - 1] + [s[|s| - 1]];
      r
  }

  /**
   Splits a stored field at its last `/` into the port name and the position
   printed after it; fails unless the position is a canonical decimal number.
   */
  function ParseNumbered(f: string): (p: Option<NumberedPort>)
    ensures p.Some? ==> Numbered(p.value.port, p.value.index) == f
  {
    match LastIndexMark(f)
    case None => None
    case Some(j) =>
      var digits := f[j + 1..];
      if Decimal.IsCanonical(digits) then
        Decimal.ShowParse(digits);
        assert f == f[..j] + [INDEX_MARK] + digits;
        Some(NumberedPort(f[..j], Decimal.Parse(digits)))
      else None
  }

  /** Every numbered field parses back to the name and position it was built from. */
  lemma ParseNumberedInverse(v: string, n: nat)
    ensures ParseNumbered(Numbered(v, n)) == Some(NumberedPort(v, n))
  {
    var f := Numbered(v, n);
    var digits := Decimal.Show(n);
    assert INDEX_MARK !in digits by {
      forall i | 0 <= i < |digits|
        ensures digits[i] != INDEX_MARK
      {
        assert Decimal.IsDigit(digits[i]);
      }
    }
    assert f[|v|] == INDEX_MARK && f[|v| + 1..] == digits;
    var j := LastIndexMark(f);
    assert j == Some(|v|);
    assert f[..|v|] == v;
    Decimal.ParseShow(n);
  }

  /**
   Round trip: taking every stored field apart gives back the original port
   names, in order, with positions running 1, 2, ..., n.
   */
  lemma PortsRoundTrip(ports: string)
    ensures var before, after := RubyString.Split(ports, PORT_SEPARATOR), RubyString.Split(Ports(ports), PORT_SEPARATOR);
            && |after| == |before|
            && forall i :: 0 <= i < |after| ==> ParseNumbered(after[i]) == Some(NumberedPort(before[i], i + 1))
  {
    var before, after := RubyString.Split(ports, PORT_SEPARATOR), RubyString.Split(Ports(ports), PORT_SEPARATOR);
    forall i | 0 <= i < |after|
      ensures ParseNumbered(after[i]) == Some(NumberedPort(before[i], i + 1))
    {
      ParseNumberedInverse(before[i], i + 1);
    }
  }
}
