/**
 * Properties of the pattern scan of formatExprInternal: the scan follows
 * the placeholder indexing rule (WellFormedFrom), and it is a bijection
 * between patterns that do not read past their end and well-formed item
 * sequences.
 */
module ScanProps {
  import opened Outcome
  import opened Text
  import opened Template

  /**
   * Every item sequence the scan produces obeys the indexing rule: a digit
   * d selects operand d-1, no digit selects the running index, and the
   * running index continues one past the previous placeholder's, `%%`
   * included. Reading the items back gives the pattern.
   */
  lemma {:induction false} ScanIsWellFormed(s: string, n: int)
    requires ScanFrom(s, n).Some?
    ensures WellFormedFrom(ScanFrom(s, n).value, n)
    ensures Unscan(ScanFrom(s, n).value) == s
    decreases |s|
  {
    if s == [] {
    } else if s[0] != '%' {
      ScanIsWellFormed(s[1..], n);
      LiteralStep(s, n);
    } else if IsDigit(s[1]) {
      ScanIsWellFormed(s[3..], ExplicitIndex(s[1]) + 1);
      ExplicitStep(s, n);
    } else {
      ScanIsWellFormed(s[2..], n + 1);
      ImplicitStep(s, n);
    }
  }

  lemma LiteralStep(s: string, n: int)
    requires s != [] && s[0] != '%' && ScanFrom(s[1..], n).Some?
    requires WellFormedFrom(ScanFrom(s[1..], n).value, n) && Unscan(ScanFrom(s[1..], n).value) == s[1..]
    ensures ScanFrom(s, n).Some? && WellFormedFrom(ScanFrom(s, n).value, n) && Unscan(ScanFrom(s, n).value) == s
  {
    var rest := ScanFrom(s[1..], n).value;
    var items := [Lit(s[0])] + rest;
    assert ScanFrom(s, n) == Some(items);
    assert items[1..] == rest;
    assert [s[0]] + s[1..] == s;
  }

  lemma ExplicitStep(s: string, n: int)
    requires |s| >= 3 && s[0] == '%' && IsDigit(s[1])
    requires var m := ExplicitIndex(s[1]) + 1;
      ScanFrom(s[3..], m).Some? && WellFormedFrom(ScanFrom(s[3..], m).value, m) && Unscan(ScanFrom(s[3..], m).value) == s[3..]
    ensures ScanFrom(s, n).Some? && WellFormedFrom(ScanFrom(s, n).value, n) && Unscan(ScanFrom(s, n).value) == s
  {
    var m := ExplicitIndex(s[1]);
    var rest := ScanFrom(s[3..], m + 1).value;
    var items := [Placeholder(s[2], m, true)] + rest;
    assert ScanFrom(s, n) == Some(items);
    assert items[1..] == rest;
    assert DigitChar((m + 1) % 256) == s[1];
    assert ['%', s[1], s[2]] + s[3..] == s;
  }

  lemma ImplicitStep(s: string, n: int)
    requires |s| >= 2 && s[0] == '%' && !IsDigit(s[1])
    requires ScanFrom(s[2..], n + 1).Some?
    requires WellFormedFrom(ScanFrom(s[2..], n + 1).value, n + 1) && Unscan(ScanFrom(s[2..], n + 1).value) == s[2..]
    ensures ScanFrom(s, n).Some? && WellFormedFrom(ScanFrom(s, n).value, n) && Unscan(ScanFrom(s, n).value) == s
  {
    var rest := ScanFrom(s[2..], n + 1).value;
    var items := [Placeholder(s[1], n, false)] + rest;
    assert ScanFrom(s, n) == Some(items);
    assert items[1..] == rest;
    assert ['%', s[1]] + s[2..] == s;
  }

  /** Conversely, a well-formed item sequence is what its own text scans to. */
  lemma {:induction false} WellFormedScans(items: seq<Item>, n: int)
    requires WellFormedFrom(items, n)
    ensures ScanFrom(Unscan(items), n) == Some(items)
    decreases |items|
  {
    if items != [] {
      var rest := items[1..];
      var text := Unscan(items);
      assert items == [items[0]] + rest;
      match items[0]
      case Lit(b) =>
        WellFormedScans(rest, n);
        assert text == [b] + Unscan(rest);
        assert text[1..] == Unscan(rest);
      case Placeholder(tag, m, explicit) =>
        if explicit {
          WellFormedScans(rest, m + 1);
          assert ExplicitIndex(DigitChar((m + 1) % 256)) == m;
          assert text == ['%', DigitChar((m + 1) % 256), tag] + Unscan(rest);
          assert text[3..] == Unscan(rest);
        } else {
          WellFormedScans(rest, m + 1);
          assert text == ['%', tag] + Unscan(rest);
          assert text[2..] == Unscan(rest);
        }
    }
  }

  /** A pattern whose scan succeeds is recovered from its items. */
  lemma ScanRoundTrip(pattern: string)
    requires Scan(pattern).Some?
    ensures Unscan(Scan(pattern).value) == pattern
  {
    ScanIsWellFormed(pattern, 0);
  }

  /** Items obeying the indexing rule from index 0 are exactly the scan of their text. */
  lemma UnscanRoundTrip(items: seq<Item>)
    requires WellFormedFrom(items, 0)
    ensures Scan(Unscan(items)) == Some(items)
  {
    WellFormedScans(items, 0);
  }
}
