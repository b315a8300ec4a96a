/// `Directory::display`: the total size, then one fixed-width row per direct
/// child. The stream manipulators are modelled by a decimal rendering and two
/// padding functions.
module Listing {
  import opened Nodes
  import opened Directory

  function Digit(d: nat): (c: char)
    requires d < 10
    ensures '0' <= c <= '9'
  {
    ('0' as int + d) as char
  }

  predicate IsDecimal(s: string)
  {
    forall k :: 0 <= k < |s| ==> '0' <= s[k] <= '9'
  }

  /** How `operator<<` writes an unsigned number: decimal digits, no leading zero. */
  function DecimalString(n: nat): (s: string)
    ensures |s| >= 1 && IsDecimal(s)
    ensures s[0] == '0' ==> n == 0
  {
    if n < 10 then [Digit(n)] else DecimalString(n / 10) + [Digit(n % 10)]
  }

  /** The number a string of decimal digits denotes. */
  function DecimalValue(s: string): nat
    requires IsDecimal(s)
  {
    if s == [] then 0
    else 10 * DecimalValue(s[..|s| - 1]) + (s[|s| - 1] as int - '0' as int)
  }

  /** Reading back the rendered digits gives the number. */
  lemma {:induction false} DecimalRoundTrip(n: nat)
    ensures DecimalValue(DecimalString(n)) == n
  {
    if n >= 10 {
      var s := DecimalString(n);
      assert s[..|s| - 1] == DecimalString(n / 10);
      DecimalRoundTrip(n / 10);
    }
  }

  function Pow10(w: nat): (p: nat)
    ensures p >= 1
  {
    if w == 0 then 1 else 10 * Pow10(w - 1)
  }

  /** A number below 10^w needs at most w digits. */
  lemma {:induction false} DecimalWidth(n: nat, w: nat)
    requires 0 < w && n < Pow10(w)
    ensures |DecimalString(n)| <= w
  {
    if n >= 10 {
      DecimalWidth(n / 10, w - 1);
    }
  }

  function Spaces(k: nat): (r: string)
    ensures |r| == k && forall i :: 0 <= i < k ==> r[i] == ' '
  {
    seq(k, _ => ' ')
  }

  /** `std::right << std::setw(w)`: spaces on the left up to width w; a
      longer text is not cut. */
  function PadLeft(s: string, w: nat): (r: string)
    ensures |r| == if |s| < w then w else |s|
    ensures r[|r| - |s|..] == s
    ensures forall i :: 0 <= i < |r| - |s| ==> r[i] == ' '
  {
    Spaces(if |s| < w then w - |s| else 0) + s
  }

  /** `std::left << std::setw(w)`: spaces on the right up to width w. */
  function PadRight(s: string, w: nat): (r: string)
    ensures |r| == if |s| < w then w else |s|
    ensures r[..|s|] == s
    ensures forall i :: |s| <= i < |r| ==> r[i] == ' '
  {
    s + Spaces(if |s| < w then w - |s| else 0)
  }

  function Header(total: nat): string
  {
    "Total size: " + DecimalString(total) + " bytes" + "\n"
  }

  /** The type marker that opens a row. */
  function Marker(c: Node): string
  {
    if c.Dir? then "D | " else "F | "
  }

  /** The long-format fields: the count (right-aligned, width 2, blank for a
      file) and the size (right-aligned, width 10) with its unit. */
  function Details(c: Node, size: nat, long: bool): string
  {
    if !long then ""
    else if c.Dir? then PadLeft(DecimalString(|c.children|), 2) + " | " + PadLeft(DecimalString(size), 10) + " bytes |"
    else "   | " + PadLeft(DecimalString(size), 10) + " bytes |"
  }

  /** One child's row: the marker, the name left-aligned in 15 columns, then
      the long-format fields. */
  function Row(c: Node, long: bool): string
  {
    Marker(c) + PadRight(c.name, 15) + " | " + Details(c, c.Size(), long) + "\n"
  }

  /** A row opens with the type marker and the whole name, and ends its line;
      a short row is the name padded to 15 columns between two separators. */
  lemma RowFields(c: Node, long: bool)
    ensures |Row(c, long)| >= 4 + |c.name| + 4
    ensures Row(c, long)[..4] == (if c.Dir? then "D | " else "F | ")
    ensures Row(c, long)[4..4 + |c.name|] == c.name
    ensures Row(c, long)[|Row(c, long)| - 1] == '\n'
    ensures !long ==> |Row(c, long)| == 4 + (if |c.name| < 15 then 15 else |c.name|) + 3 + 1
  {
    var m := Marker(c);
    var padded := PadRight(c.name, 15);
    var tail := " | " + Details(c, c.Size(), long) + "\n";
    var r := m + padded + tail;
    assert r == Row(c, long);
    assert r[..4] == m;
    assert r[4..4 + |c.name|] == padded[..|c.name|];
  }

  function Rows(cs: seq<Node>, long: bool): string
  {
    if cs == [] then "" else Rows(cs[..|cs| - 1], long) + Row(cs[|cs| - 1], long)
  }

  function Listing(d: Node, long: bool): string
    requires d.Dir?
  {
    Header(d.Size()) + Rows(d.children, long)
  }

  /** The listing written so far: the header and the rows of the first `i` children. */
  function ListingPrefix(d: Node, i: nat, long: bool): string
    requires d.Dir? && i <= |d.children|
  {
    Header(d.Size()) + Rows(d.children[..i], long)
  }

  lemma ListingPrefixStep(d: Node, i: nat, long: bool)
    requires d.Dir? && i < |d.children|
    ensures ListingPrefix(d, i + 1, long) == ListingPrefix(d, i, long) + Row(d.children[i], long)
  {
    RowsSnoc(d.children, i, long);
    var h, rs, row := Header(d.Size()), Rows(d.children[..i], long), Row(d.children[i], long);
    assert (h + rs) + row == h + (rs + row);
  }

  lemma RowsSnoc(cs: seq<Node>, i: nat, long: bool)
    requires i < |cs|
    ensures Rows(cs[..i + 1], long) == Rows(cs[..i], long) + Row(cs[i], long)
  {
    assert cs[..i + 1][..i] == cs[..i];
  }

  lemma ListingPrefixEnds(d: Node, long: bool)
    requires d.Dir?
    ensures ListingPrefix(d, 0, long) == Header(d.Size())
    ensures ListingPrefix(d, |d.children|, long) == Listing(d, long)
  {
    assert d.children[..0] == [];
    assert d.children[..|d.children|] == d.children;
  }

  lemma RowIgnoresSize(c: Node, size: nat, long: bool)
    requires long ==> size == c.Size()
    ensures Marker(c) + PadRight(c.name, 15) + " | " + Details(c, size, long) + "\n" == Row(c, long)
  {
  }

  /** The writing loop of `display`; a child's size is computed only for the
      long format. */
  method Display(d: Node, long: bool) returns (out: string)
    requires d.Dir?
    ensures out == Listing(d, long)
  {
    var total := ComputeSize(d);
    out := Header(total);
    ListingPrefixEnds(d, long);
    var i := 0;
    while i < |d.children|
      invariant 0 <= i <= |d.children|
      invariant out == ListingPrefix(d, i, long)
    {
      var c := d.children[i];
      var size := 0;
      if long {
        size := ComputeSize(c);
      }
      RowIgnoresSize(c, size, long);
      ListingPrefixStep(d, i, long);
      out := out + (Marker(c) + PadRight(c.name, 15) + " | " + Details(c, size, long) + "\n");
      i := i + 1;
    }
  }

  /** When names fit in 15 characters, counts in 2 digits and sizes in 10,
      every row has the same width, for files and directories alike. */
  lemma RowWidth(c: Node, long: bool)
    requires |c.name| <= 15
    requires c.Dir? ==> |c.children| < Pow10(2)
    requires c.Size() < Pow10(10)
    ensures |Row(c, long)| == if long then 46 else 23
  {
    DecimalWidth(c.Size(), 10);
    if c.Dir? {
      DecimalWidth(|c.children|, 2);
    }
  }

  function Newlines(s: string): nat
  {
    multiset(s)['\n']
  }

  lemma NewlinesAppend(a: string, b: string)
    ensures Newlines(a + b) == Newlines(a) + Newlines(b)
  {
    assert multiset(a + b) == multiset(a) + multiset(b);
  }

  lemma PaddingAddsNoBreak(s: string, w: nat)
    requires '\n' !in s
    ensures '\n' !in PadLeft(s, w) && '\n' !in PadRight(s, w)
  {
  }

  lemma MarkerHasNoBreak(c: Node)
    ensures '\n' !in Marker(c)
  {
  }

  lemma DetailsHaveNoBreak(c: Node, size: nat, long: bool)
    ensures '\n' !in Details(c, size, long)
  {
    var digits := DecimalString(size);
    assert '\n' !in digits;
    PaddingAddsNoBreak(digits, 10);
    var sizeField := PadLeft(digits, 10);
    var unit := " bytes |";
    assert '\n' !in unit;
    if long && c.Dir? {
      var count := DecimalString(|c.children|);
      assert '\n' !in count;
      PaddingAddsNoBreak(count, 2);
      var sep := " | ";
      assert '\n' !in sep;
      assert Details(c, size, long) == PadLeft(count, 2) + sep + sizeField + unit;
    } else if long {
      var blank := "   | ";
      assert '\n' !in blank;
      assert Details(c, size, long) == blank + sizeField + unit;
    }
  }

  /** A row ends its own line and holds no other line break. */
  lemma RowIsOneLine(c: Node, long: bool)
    requires '\n' !in c.name
    ensures Newlines(Row(c, long)) == 1
  {
    MarkerHasNoBreak(c);
    DetailsHaveNoBreak(c, c.Size(), long);
    PaddingAddsNoBreak(c.name, 15);
    var sep := " | ";
    assert '\n' !in sep;
    var line := Marker(c) + PadRight(c.name, 15) + sep + Details(c, c.Size(), long);
    assert '\n' !in line;
    NoBreakNoNewlines(line);
    BreakIsOneNewline();
    NewlinesAppend(line, "\n");
    assert Row(c, long) == line + "\n";
  }

  lemma NoBreakNoNewlines(s: string)
    requires '\n' !in s
    ensures Newlines(s) == 0
  {
  }

  lemma BreakIsOneNewline()
    ensures Newlines("\n") == 1
  {
    assert multiset("\n") == multiset{'\n'};
  }

  lemma HeaderWordsHaveNoBreak()
    ensures '\n' !in "Total size: " && '\n' !in " bytes"
  {
  }

  lemma HeaderIsOneLine(total: nat)
    ensures Newlines(Header(total)) == 1
  {
    var digits := DecimalString(total);
    assert '\n' !in digits;
    HeaderWordsHaveNoBreak();
    var text := "Total size: " + digits + " bytes";
    assert Header(total) == text + "\n";
    NoBreakNoNewlines(text);
    BreakIsOneNewline();
    NewlinesAppend(text, "\n");
  }

  /** With no line break inside a child's name, the listing has one line
      for the total and one per direct child. */
  lemma {:induction false} ListingLines(d: Node, long: bool)
    requires d.Dir?
    requires forall k :: 0 <= k < |d.children| ==> '\n' !in d.children[k].name
    ensures Newlines(Listing(d, long)) == |d.children| + 1
  {
    HeaderIsOneLine(d.Size());
    RowsLines(d.children, long);
    NewlinesAppend(Header(d.Size()), Rows(d.children, long));
  }

  lemma {:induction false} RowsLines(cs: seq<Node>, long: bool)
    requires forall k :: 0 <= k < |cs| ==> '\n' !in cs[k].name
    ensures Newlines(Rows(cs, long)) == |cs|
  {
    if cs != [] {
      RowsLines(cs[..|cs| - 1], long);
      RowIsOneLine(cs[|cs| - 1], long);
      NewlinesAppend(Rows(cs[..|cs| - 1], long), Row(cs[|cs| - 1], long));
    }
  }
}
