/** The two ways the recipient list is filled: from a dropped CSV file, whose
    cells are all taken and kept when longer than 30 characters, and from the
    textarea, whose text is split on commas and newlines and trimmed, with no
    filtering at all. Neither path removes duplicates. */
module Recipients {
  import opened Text
  import opened SeqFacts

  /** Cells of at most this many characters are not taken as addresses. */
  const MinAddressLength: nat := 30

  /** `a.length > 30`. */
  predicate LongEnough(cell: string) {
    |cell| > MinAddressLength
  }

  /** `rows.flat()`: the cells of all rows, row after row. */
  function Flatten(rows: seq<seq<string>>): (cells: seq<string>)
    decreases |rows|
  {
    if |rows| == 0 then [] else rows[0] + Flatten(rows[1..])
  }

  lemma {:induction false} FlattenAppend(a: seq<seq<string>>, b: seq<seq<string>>)
    ensures Flatten(a + b) == Flatten(a) + Flatten(b)
    decreases |a|
  {
    if |a| == 0 {
      assert a + b == b;
    } else {
      assert (a + b)[1..] == a[1..] + b;
      FlattenAppend(a[1..], b);
    }
  }

  /** Flattening keeps every cell of every row, and only those, as often as
      they occur. */
  lemma {:induction false} FlattenCounts(rows: seq<seq<string>>, x: string)
    ensures multiset(Flatten(rows))[x] == CountInRows(rows, x)
    decreases |rows|
  {
    if |rows| > 0 {
      FlattenCounts(rows[1..], x);
    }
  }

  /** Occurrences of `x` across all rows. */
  function CountInRows(rows: seq<seq<string>>, x: string): nat
    decreases |rows|
  {
    if |rows| == 0 then 0 else multiset(rows[0])[x] + CountInRows(rows[1..], x)
  }

  /** `.filter((a) => a.length > 30)`: every kept cell is long, and every long
      cell is kept as many times as it occurs. */
  function KeepLong(cells: seq<string>): (kept: seq<string>)
    ensures |kept| <= |cells|
    ensures forall k :: 0 <= k < |kept| ==> LongEnough(kept[k])
    ensures forall x :: LongEnough(x) ==> multiset(kept)[x] == multiset(cells)[x]
    decreases |cells|
  {
    if |cells| == 0 then []
    else
      assert cells == [cells[0]] + cells[1..];
      (if LongEnough(cells[0]) then [cells[0]] else []) + KeepLong(cells[1..])
  }

  /** Filtering distributes over concatenation: it keeps the original order. */
  lemma {:induction false} KeepLongAppend(a: seq<string>, b: seq<string>)
    ensures KeepLong(a + b) == KeepLong(a) + KeepLong(b)
    decreases |a|
  {
    if |a| == 0 {
      assert a + b == b;
    } else {
      assert (a + b)[1..] == a[1..] + b;
      KeepLongAppend(a[1..], b);
    }
  }

  /** `handleCSVRecipients` after parsing: the long cells of all rows, in row
      order and then cell order, duplicates included. */
  function CsvRecipients(rows: seq<seq<string>>): (addrs: seq<string>)
    ensures forall k :: 0 <= k < |addrs| ==> LongEnough(addrs[k])
    ensures forall x :: LongEnough(x) ==> multiset(addrs)[x] == CountInRows(rows, x)
  {
    forall x | LongEnough(x)
      ensures multiset(KeepLong(Flatten(rows)))[x] == CountInRows(rows, x)
    {
      FlattenCounts(rows, x);
    }
    KeepLong(Flatten(rows))
  }

  /** Parsing a table row by row: the recipients of `a + b` are those of `a`
      followed by those of `b`. */
  lemma CsvRecipientsAppend(a: seq<seq<string>>, b: seq<seq<string>>)
    ensures CsvRecipients(a + b) == CsvRecipients(a) + CsvRecipients(b)
  {
    FlattenAppend(a, b);
    KeepLongAppend(Flatten(a), Flatten(b));
  }

  /** A single row flattens to itself: `.flat()` keeps the cells of a row in
      their order. */
  lemma FlattenOne(row: seq<string>)
    ensures Flatten([row]) == row
  {
    assert [row][1..] == [];
    assert Flatten([row]) == row + Flatten([]);
  }

  /** The filter on one cell keeps it exactly when it is long enough. */
  lemma KeepLongOne(cell: string)
    ensures KeepLong([cell]) == if LongEnough(cell) then [cell] else []
  {
    assert [cell][1..] == [];
  }

  /** One CSV line gives its long cells in cell order. */
  lemma CsvRecipientsRow(row: seq<string>)
    ensures CsvRecipients([row]) == KeepLong(row)
  {
    FlattenOne(row);
  }

  /** In a line with a short cell between two addresses, the addresses come
      back in the order they are written and the short cell is dropped. */
  lemma CsvKeepsCellOrder(a: string, short: string, b: string)
    requires LongEnough(a) && !LongEnough(short) && LongEnough(b)
    ensures CsvRecipients([[a, short, b]]) == [a, b]
  {
    var front := [a] + [short];
    KeepLongAppend([a], [short]);
    KeepLongOne(a);
    KeepLongOne(short);
    assert KeepLong(front) == [a];
    KeepLongAppend(front, [b]);
    KeepLongOne(b);
    Triple(a, short, b);
    CsvRecipientsRow([a, short, b]);
    assert CsvRecipients([[a, short, b]]) == KeepLong(front + [b]);
  }

  lemma TrimSeparatorFree(s: string)
    requires SeparatorFree(s)
    ensures SeparatorFree(Trim(s))
  {
    var t := Trim(s);
    var a := LeadingWhitespace(s);
    forall k | 0 <= k < |t|
      ensures !IsSeparator(t[k])
    {
      assert t[k] == s[a..a + |t|][k] == s[a + k];
    }
  }

  /** The textarea's `onChange`: `text.split(/,|\n/).map((a) => a.trim())`.
      One recipient per separator plus one, each trimmed and free of commas
      and newlines; empty pieces are kept. */
  function TextareaRecipients(text: string): (rs: seq<string>)
    ensures |rs| == |Separators(text)| + 1 && |rs| == |Split(text)|
    ensures forall k :: 0 <= k < |rs| ==> rs[k] == Trim(Split(text)[k])
    ensures forall k :: 0 <= k < |rs| ==> NoOuterWhitespace(rs[k]) && SeparatorFree(rs[k])
  {
    var pieces := Split(text);
    SplitCount(text);
    forall k | 0 <= k < |pieces|
      ensures SeparatorFree(Trim(pieces[k]))
    {
      TrimSeparatorFree(pieces[k]);
    }
    seq(|pieces|, k requires 0 <= k < |pieces| => Trim(pieces[k]))
  }

  /** Whitespace a user may type around an address without starting a new
      recipient: anything `trim` removes except a newline. */
  predicate Padding(w: string) {
    AllWhitespace(w) && SeparatorFree(w)
  }

  /** Each address wrapped in its own leading and trailing padding. */
  function Pad(addrs: seq<string>, lead: seq<string>, trail: seq<string>): (padded: seq<string>)
    requires |lead| == |addrs| && |trail| == |addrs|
    ensures |padded| == |addrs|
  {
    seq(|addrs|, k requires 0 <= k < |addrs| => lead[k] + addrs[k] + trail[k])
  }

  lemma SeparatorFreeConcat(a: string, b: string)
    requires SeparatorFree(a) && SeparatorFree(b)
    ensures SeparatorFree(a + b)
  {
    forall k | 0 <= k < |a + b|
      ensures !IsSeparator((a + b)[k])
    {
      if k >= |a| {
        assert (a + b)[k] == b[k - |a|];
      }
    }
  }

  /** Addresses typed comma- or newline-separated, in any mix and with any
      spaces or tabs around them, come back exactly, in order and with their
      repetitions. */
  lemma TextareaRoundTrip(addrs: seq<string>, lead: seq<string>, trail: seq<string>, seps: string)
    requires |addrs| == |seps| + 1 && |lead| == |addrs| && |trail| == |addrs|
    requires forall k :: 0 <= k < |addrs| ==> SeparatorFree(addrs[k]) && NoOuterWhitespace(addrs[k])
    requires forall k :: 0 <= k < |addrs| ==> Padding(lead[k]) && Padding(trail[k])
    requires forall k :: 0 <= k < |seps| ==> IsSeparator(seps[k])
    ensures TextareaRecipients(Join(Pad(addrs, lead, trail), seps)) == addrs
  {
    var padded := Pad(addrs, lead, trail);
    forall k | 0 <= k < |padded|
      ensures SeparatorFree(padded[k])
    {
      SeparatorFreeConcat(lead[k], addrs[k]);
      SeparatorFreeConcat(lead[k] + addrs[k], trail[k]);
    }
    JoinSplit(padded, seps);
    var rs := TextareaRecipients(Join(padded, seps));
    forall k | 0 <= k < |addrs|
      ensures rs[k] == addrs[k]
    {
      TrimUnique(lead[k], addrs[k], trail[k]);
    }
  }

  /** The everyday input: a space after the comma does not end up in the
      second address. */
  lemma SpaceAfterComma()
    ensures TextareaRecipients("addr1, addr2") == ["addr1", "addr2"]
  {
    var addrs := ["addr1", "addr2"];
    assert NoOuterWhitespace("addr1") && NoOuterWhitespace("addr2");
    assert Padding(" ");
    var padded := Pad(addrs, ["", " "], ["", ""]);
    TextareaRoundTrip(addrs, ["", " "], ["", ""], ",");
    assert padded[0] == "" + "addr1" + "" == "addr1";
    assert padded[1] == " " + "addr2" + "" == " addr2";
    assert padded[1..] == [" addr2"];
    assert ","[1..] == "";
    assert Join(padded, ",") == "addr1" + [','] + " addr2";
    assert "addr1" + [','] + " addr2" == "addr1, addr2";
  }

  lemma {:induction false} SplitTrailingSeparator(s: string, c: char)
    requires IsSeparator(c)
    ensures Split(s + [c]) == Split(s) + [""]
    decreases |s|
  {
    if |s| == 0 {
      assert s + [c] == [c];
      assert [c][1..] == [];
    } else {
      assert (s + [c])[1..] == s[1..] + [c];
      SplitTrailingSeparator(s[1..], c);
    }
  }

  /** A trailing comma or newline adds one empty recipient, and an empty
      textarea gives a single empty recipient; neither is filtered out. */
  lemma TrailingSeparatorAddsEmptyRecipient(text: string, c: char)
    requires IsSeparator(c)
    ensures TextareaRecipients(text + [c]) == TextareaRecipients(text) + [""]
    ensures TextareaRecipients("") == [""]
  {
    SplitTrailingSeparator(text, c);
    assert |Trim("")| == 0;
    var before := TextareaRecipients(text);
    var after := TextareaRecipients(text + [c]);
    var pieces := Split(text + [c]);
    assert |after| == |before| + 1;
    forall k | 0 <= k < |after|
      ensures after[k] == (before + [""])[k]
    {
      if k < |before| {
        assert pieces[k] == Split(text)[k];
      }
    }
  }
}
