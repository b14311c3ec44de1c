/** Example inputs of the redactor with their exact outputs, including the
    inputs that show why its guarantees need disjoint, well-formed spans. */
module Scenarios {
  import opened Spans
  import opened StableSort
  import opened Redactor

  /** A single entity is one splice. */
  lemma RedactOne(text: string, x: Entity)
    ensures Redact(text, [x]) == Splice(text, x)
  {
    assert SortDesc([x]) == [x];
    assert ApplyAll(text, [x]) == ApplyAll(Splice(text, x), []);
  }

  /** Two entities are spliced higher `begin` first, whatever their input
      order; with equal `begin`, the first in the input goes first. */
  lemma RedactTwo(text: string, x: Entity, y: Entity)
    ensures y.begin <= x.begin ==> Redact(text, [x, y]) == Splice(Splice(text, x), y)
    ensures x.begin < y.begin ==> Redact(text, [x, y]) == Splice(Splice(text, y), x)
  {
    assert [x, y][1..] == [y];
    assert SortDesc([y]) == [y];
    var d := SortDesc([x, y]);
    assert d == Insert(x, [y]);
    assert d[1..] == [d[1]];
    assert ApplyAll(text, d) == ApplyAll(Splice(text, d[0]), [d[1]]);
    assert ApplyAll(Splice(text, d[0]), [d[1]]) == ApplyAll(Splice(Splice(text, d[0]), d[1]), []);
  }

  /** A phone number in the middle of a sentence. */
  lemma PhoneNumber()
    ensures Redact("Call 555-1234 now", [Entity(5, 13, "PHONE")]) == "Call [PHONE] now"
  {
    RedactOne("Call 555-1234 now", Entity(5, 13, "PHONE"));
    assert "Call 555-1234 now"[..5] == "Call ";
    assert "Call 555-1234 now"[13..] == " now";
  }

  /** Two entities given lowest first; the second one's `end` (27) is past
      the end of the 26-character text and is clamped by the slice. */
  lemma NameAndAddress()
    ensures Redact("Alice lives at 123 Main St",
                   [Entity(0, 5, "NAME"), Entity(15, 27, "ADDRESS")])
         == "[NAME] lives at [ADDRESS]"
  {
    RedactTwo("Alice lives at 123 Main St", Entity(0, 5, "NAME"), Entity(15, 27, "ADDRESS"));
    AddressStep();
    NameStep();
  }

  lemma AddressStep()
    ensures Splice("Alice lives at 123 Main St", Entity(15, 27, "ADDRESS"))
         == "Alice lives at [ADDRESS]"
  {
    var t := "Alice lives at 123 Main St";
    assert |t| == 26;
    assert t[..15] == "Alice lives at ";
    assert t[26..] == [];
  }

  lemma NameStep()
    ensures Splice("Alice lives at [ADDRESS]", Entity(0, 5, "NAME"))
         == "[NAME] lives at [ADDRESS]"
  {
    var t := "Alice lives at [ADDRESS]";
    var x := Entity(0, 5, "NAME");
    var rest := t[5..];
    assert rest == " lives at [ADDRESS]";
    assert Token(x) == "[NAME]";
    assert t[..0] + Token(x) == "[NAME]";
    assert Splice(t, x) == "[NAME]" + rest;
  }

  /** Overlapping spans: the lower splice uses offsets of the original text
      on a text the higher splice already changed, and cuts into its
      placeholder. */
  lemma OverlapCorrupts()
    ensures Redact("abcdef", [Entity(1, 4, "A"), Entity(3, 5, "B")]) == "a[A]B]f"
  {
    RedactTwo("abcdef", Entity(1, 4, "A"), Entity(3, 5, "B"));
    OverlapHighStep();
    OverlapLowStep();
  }

  lemma OverlapHighStep()
    ensures Splice("abcdef", Entity(3, 5, "B")) == "abc[B]f"
  {
    var t := "abcdef";
    assert t[..3] == "abc";
    assert t[5..] == "f";
  }

  lemma OverlapLowStep()
    ensures Splice("abc[B]f", Entity(1, 4, "A")) == "a[A]B]f"
  {
    var t := "abc[B]f";
    assert t[..1] == "a";
    assert t[4..] == "B]f";
  }

  /** Nested spans: the lower splice's original `end` lands in text the
      higher splice has shifted, so the higher placeholder disappears and
      characters inside the lower span (`e`, `f`) are left unredacted. */
  lemma NestedSpanLeaks()
    ensures Redact("abcdef", [Entity(0, 6, "A"), Entity(1, 2, "B")]) == "[A]ef"
  {
    RedactTwo("abcdef", Entity(0, 6, "A"), Entity(1, 2, "B"));
    NestedInnerStep();
    NestedOuterStep();
  }

  lemma NestedInnerStep()
    ensures Splice("abcdef", Entity(1, 2, "B")) == "a[B]cdef"
  {
    var t := "abcdef";
    assert t[..1] == "a";
    assert t[2..] == "cdef";
  }

  lemma NestedOuterStep()
    ensures Splice("a[B]cdef", Entity(0, 6, "A")) == "[A]ef"
  {
    var t := "a[B]cdef";
    assert t[..0] == [];
    assert t[6..] == "ef";
  }

  /** A reversed span (`begin > end`) is not rejected: the characters
      between `end` and `begin` come out twice. */
  lemma ReversedSpanDuplicates()
    ensures Redact("abcdef", [Entity(4, 2, "X")]) == "abcd[X]cdef"
  {
    RedactOne("abcdef", Entity(4, 2, "X"));
    assert "abcdef"[..4] == "abcd";
    assert "abcdef"[2..] == "cdef";
  }

  /** Two zero-width entities at the same offset are disjoint as intervals,
      yet the output depends on their input order: with equal `begin` the
      stable sort keeps the input order, and the entity processed first ends
      up to the right. */
  lemma SameOffsetOrderMatters()
    ensures Redact("ab", [Entity(1, 1, "X"), Entity(1, 1, "Y")]) == "a[Y][X]b"
    ensures Redact("ab", [Entity(1, 1, "Y"), Entity(1, 1, "X")]) == "a[X][Y]b"
  {
    SameOffsetXY();
    SameOffsetYX();
  }

  lemma SameOffsetXY()
    ensures Redact("ab", [Entity(1, 1, "X"), Entity(1, 1, "Y")]) == "a[Y][X]b"
  {
    SameOffsetFirstRight("ab", "X", "Y");
    assert "ab"[..1] == "a" && "ab"[1..] == "b";
  }

  lemma SameOffsetYX()
    ensures Redact("ab", [Entity(1, 1, "Y"), Entity(1, 1, "X")]) == "a[X][Y]b"
  {
    SameOffsetFirstRight("ab", "Y", "X");
    assert "ab"[..1] == "a" && "ab"[1..] == "b";
  }

  /** Two zero-width entities at offset 1: the first in the input is
      spliced first, so the second one's placeholder ends up before it. */
  lemma SameOffsetFirstRight(t: string, first: string, second: string)
    requires |t| >= 1
    ensures Redact(t, [Entity(1, 1, first), Entity(1, 1, second)])
         == (t[..1] + Token(Entity(1, 1, second))) + (Token(Entity(1, 1, first)) + t[1..])
  {
    var x, y := Entity(1, 1, first), Entity(1, 1, second);
    RedactTwo(t, x, y);
    var a, rest := t[..1], Token(x) + t[1..];
    var t1 := Splice(t, x);
    assert t1 == (a + Token(x)) + t[1..];
    AppendAssoc(a, Token(x), t[1..]);
    assert t1 == a + rest;
    assert t1[..1] == a && t1[1..] == rest;
  }

  /** Spans touching both ends of the text redact without any slice
      leaving the text. */
  lemma BoundarySpans()
    ensures Redact("xyz", [Entity(0, 1, "F"), Entity(2, 3, "L")]) == "[F]y[L]"
  {
    RedactTwo("xyz", Entity(0, 1, "F"), Entity(2, 3, "L"));
    LastCharStep();
    FirstCharStep();
  }

  lemma LastCharStep()
    ensures Splice("xyz", Entity(2, 3, "L")) == "xy[L]"
  {
    assert "xyz"[..2] == "xy";
    assert "xyz"[3..] == [];
  }

  lemma FirstCharStep()
    ensures Splice("xy[L]", Entity(0, 1, "F")) == "[F]y[L]"
  {
    assert "xy[L]"[..0] == [];
    assert "xy[L]"[1..] == "y[L]";
  }
}
