/**
 * The catalog reader: `getCategories` and `getCatalog`, and the reply texts
 * the `/start` and `/katalog` commands build from them.
 */
module Catalog {
  import opened Model
  import opened Text

  predicate NoDuplicates(s: seq<string>) {
    forall i, j :: 0 <= i < j < |s| ==> s[i] != s[j]
  }

  /** The `category` column of the rows whose category is not null, in row order. */
  function Labels(rows: seq<Product>): (labels: seq<string>)
    ensures forall c :: c in labels <==> exists i :: 0 <= i < |rows| && rows[i].category == Some(c)
  {
    if |rows| == 0 then []
    else
      var init := rows[..|rows| - 1];
      assert forall i :: 0 <= i < |init| ==> init[i] == rows[i];
      Labels(init) + (match rows[|rows| - 1].category case Some(c) => [c] case None => [])
  }

  /** The first row whose category is `c`, or `|rows|` when no row has it. */
  function FirstRow(rows: seq<Product>, c: string): (i: nat)
    ensures i <= |rows|
    ensures forall k :: 0 <= k < i ==> rows[k].category != Some(c)
    ensures i < |rows| <==> exists k :: 0 <= k < |rows| && rows[k].category == Some(c)
    ensures i < |rows| ==> rows[i].category == Some(c)
  {
    if |rows| == 0 then 0
    else if rows[0].category == Some(c) then 0
    else
      var i := FirstRow(rows[1..], c);
      assert forall k :: 1 <= k < |rows| ==> rows[k] == rows[1..][k - 1];
      1 + i
  }

  /** The labels of a prefix of the rows are a prefix of the labels. */
  lemma {:induction false} LabelsPrefix(rows: seq<Product>, n: nat)
    requires n <= |rows|
    ensures |Labels(rows[..n])| <= |Labels(rows)|
    ensures Labels(rows)[..|Labels(rows[..n])|] == Labels(rows[..n])
  {
    if n < |rows| {
      var init := rows[..|rows| - 1];
      LabelsPrefix(init, n);
      assert init[..n] == rows[..n];
    } else {
      assert rows[..n] == rows;
    }
  }

  /** One more row adds its label, if it has one, at the end. */
  lemma LabelsStep(rows: seq<Product>, f: nat)
    requires f < |rows|
    ensures Labels(rows[..f + 1]) == Labels(rows[..f]) + (match rows[f].category case Some(c) => [c] case None => [])
  {
    assert rows[..f + 1][..f] == rows[..f];
  }

  /** A label first occurs in `Labels(rows)` just after the labels of the rows before its first row. */
  lemma FirstLabelAt(rows: seq<Product>, c: string)
    requires c in Labels(rows)
    ensures FirstIndex(Labels(rows), c) == |Labels(rows[..FirstRow(rows, c)])|
  {
    var f := FirstRow(rows, c);
    var k :| 0 <= k < |rows| && rows[k].category == Some(c);
    assert f < |rows| && rows[f].category == Some(c);
    var before, next, labels := Labels(rows[..f]), Labels(rows[..f + 1]), Labels(rows);
    NotBeforeFirstRow(rows, c);
    LabelsStep(rows, f);
    assert next == before + [c];
    LabelsPrefix(rows, f + 1);
    assert labels[..|next|] == next;
    FirstAfterPrefix(labels, next, before, c);
  }

  /** No row before the first row carrying `c` carries it, so neither do their labels. */
  lemma NotBeforeFirstRow(rows: seq<Product>, c: string)
    ensures c !in Labels(rows[..FirstRow(rows, c)])
  {
    var f := FirstRow(rows, c);
    assert forall k :: 0 <= k < f ==> rows[..f][k] == rows[k];
  }

  /** When `s` opens with `next`, which is `before` and then `x`, and `before` lacks `x`, `x` first occurs at `|before|`. */
  lemma FirstAfterPrefix(s: seq<string>, next: seq<string>, before: seq<string>, x: string)
    requires |next| <= |s| && s[..|next|] == next && next == before + [x] && x !in before
    ensures FirstIndex(s, x) == |before|
  {
    var n := |before|;
    assert s[..n] == next[..n];
    assert s[n] == next[n];
    FirstIndexUnique(s, x, n);
  }

  /**
   * `data.map` keeps row order: of two listed labels, one first occurs
   * before the other in `Labels(rows)` iff its first row comes first.
   */
  lemma LabelsOrder(rows: seq<Product>, a: string, b: string)
    requires a in Labels(rows) && b in Labels(rows)
    ensures FirstIndex(Labels(rows), a) < FirstIndex(Labels(rows), b) <==> FirstRow(rows, a) < FirstRow(rows, b)
  {
    var fa, fb := FirstRow(rows, a), FirstRow(rows, b);
    FirstLabelAt(rows, a);
    FirstLabelAt(rows, b);
    if fa < fb {
      LabelsLonger(rows, fa, fb);
    } else if fb < fa {
      LabelsLonger(rows, fb, fa);
    }
  }

  /** A row with a label makes the labels of every longer prefix longer. */
  lemma LabelsLonger(rows: seq<Product>, m: nat, n: nat)
    requires m < n <= |rows| && rows[m].category.Some?
    ensures |Labels(rows[..m])| < |Labels(rows[..n])|
  {
    var prefix := rows[..n];
    LabelsStep(rows, m);
    assert |Labels(rows[..m + 1])| == |Labels(rows[..m])| + 1;
    assert prefix[..m + 1] == rows[..m + 1];
    LabelsPrefix(prefix, m + 1);
  }

  /** `Array.from(new Set(s))`: each value once, where it first occurs. */
  function Distinct(s: seq<string>): (r: seq<string>)
    ensures NoDuplicates(r)
    ensures forall x :: x in r <==> x in s
  {
    if |s| == 0 then []
    else
      var d := Distinct(s[..|s| - 1]);
      var x := s[|s| - 1];
      assert s == s[..|s| - 1] + [x];
      if x in d then d else d + [x]
  }

  /** The position where `x` first occurs in `s`, or `|s|` when it does not. */
  function FirstIndex(s: seq<string>, x: string): (i: nat)
    ensures i <= |s| && x !in s[..i]
    ensures i < |s| <==> x in s
    ensures i < |s| ==> s[i] == x
  {
    if |s| == 0 then 0
    else if s[0] == x then 0
    else
      assert s[1..][..FirstIndex(s[1..], x)] == s[1..1 + FirstIndex(s[1..], x)];
      1 + FirstIndex(s[1..], x)
  }

  lemma FirstIndexUnique(s: seq<string>, x: string, i: nat)
    requires i < |s| && s[i] == x && x !in s[..i]
    ensures FirstIndex(s, x) == i
  {
  }

  /** The values of `r` appear in the order of their first occurrence in `s`. */
  ghost predicate FirstOccurrenceOrder(r: seq<string>, s: seq<string>) {
    forall i, j :: 0 <= i < j < |r| ==> FirstIndex(s, r[i]) < FirstIndex(s, r[j])
  }

  /** Deduplication keeps first-occurrence order. */
  lemma {:induction false} DistinctOrder(s: seq<string>)
    ensures FirstOccurrenceOrder(Distinct(s), s)
  {
    if |s| > 0 {
      var init := s[..|s| - 1];
      var x := s[|s| - 1];
      var d := Distinct(init);
      DistinctOrder(init);
      forall y | y in init ensures FirstIndex(s, y) == FirstIndex(init, y) {
        var k := FirstIndex(init, y);
        assert s[..k] == init[..k];
        FirstIndexUnique(s, y, k);
      }
      if x !in d {
        assert s[..|s| - 1] == init;
        FirstIndexUnique(s, x, |s| - 1);
      }
    }
  }

  /** The entries whose trimmed length is positive, in order. */
  function NonBlank(s: seq<string>): (r: seq<string>)
    ensures forall x :: x in r <==> x in s && !IsBlank(x)
  {
    if |s| == 0 then []
    else
      assert forall x :: x in s <==> x == s[0] || x in s[1..];
      (if IsBlank(s[0]) then [] else [s[0]]) + NonBlank(s[1..])
  }

  /** Dropping the first entry keeps distinctness and first-occurrence order. */
  lemma TailKeepsOrder(d: seq<string>, s: seq<string>)
    requires |d| > 0 && NoDuplicates(d) && FirstOccurrenceOrder(d, s)
    ensures NoDuplicates(d[1..]) && FirstOccurrenceOrder(d[1..], s)
  {
    var tail := d[1..];
    forall i, j | 0 <= i < j < |tail|
      ensures FirstIndex(s, tail[i]) < FirstIndex(s, tail[j])
    {
      assert tail[i] == d[i + 1] && tail[j] == d[j + 1];
      assert FirstIndex(s, d[i + 1]) < FirstIndex(s, d[j + 1]);
    }
    assert FirstOccurrenceOrder(tail, s);
  }

  /** The first entry of `d` precedes every later entry of `d` that `r` keeps. */
  lemma HeadPrecedes(d: seq<string>, s: seq<string>, r: seq<string>)
    requires |d| > 0 && NoDuplicates(d) && FirstOccurrenceOrder(d, s)
    requires forall x :: x in r ==> x in d[1..]
    ensures forall j :: 0 <= j < |r| ==> d[0] != r[j] && FirstIndex(s, d[0]) < FirstIndex(s, r[j])
  {
    forall j | 0 <= j < |r|
      ensures d[0] != r[j] && FirstIndex(s, d[0]) < FirstIndex(s, r[j])
    {
      assert r[j] in d[1..];
      var k :| 0 <= k < |d[1..]| && d[1..][k] == r[j];
      assert d[k + 1] == r[j];
    }
  }

  /** Putting an entry that precedes all others in front keeps both properties. */
  lemma ConsKeepsOrder(x: string, rest: seq<string>, s: seq<string>)
    requires NoDuplicates(rest) && FirstOccurrenceOrder(rest, s)
    requires forall j :: 0 <= j < |rest| ==> x != rest[j] && FirstIndex(s, x) < FirstIndex(s, rest[j])
    ensures NoDuplicates([x] + rest) && FirstOccurrenceOrder([x] + rest, s)
  {
    var r := [x] + rest;
    assert r[0] == x && r[1..] == rest;
    forall i, j | 0 <= i < j < |r| ensures r[i] != r[j] {
      if i > 0 {
        assert r[i] == rest[i - 1] && r[j] == rest[j - 1];
      }
    }
    forall i, j | 0 <= i < j < |r| ensures FirstIndex(s, r[i]) < FirstIndex(s, r[j]) {
      if i == 0 {
        assert r[j] == rest[j - 1];
      } else {
        ConsOrderStep(x, rest, s, i - 1, j - 1);
      }
    }
  }

  lemma ConsOrderStep(x: string, rest: seq<string>, s: seq<string>, i: nat, j: nat)
    requires FirstOccurrenceOrder(rest, s) && i < j < |rest|
    ensures FirstIndex(s, ([x] + rest)[i + 1]) < FirstIndex(s, ([x] + rest)[j + 1])
  {
    assert ([x] + rest)[i + 1] == rest[i] && ([x] + rest)[j + 1] == rest[j];
  }

  /** Dropping blank entries keeps distinctness and first-occurrence order. */
  lemma {:induction false} NonBlankKeepsOrder(d: seq<string>, s: seq<string>)
    requires NoDuplicates(d) && FirstOccurrenceOrder(d, s)
    ensures NoDuplicates(NonBlank(d)) && FirstOccurrenceOrder(NonBlank(d), s)
  {
    if |d| > 0 {
      TailKeepsOrder(d, s);
      NonBlankKeepsOrder(d[1..], s);
      var rest := NonBlank(d[1..]);
      if IsBlank(d[0]) {
        assert NonBlank(d) == rest;
      } else {
        assert NonBlank(d) == [d[0]] + rest;
        HeadPrecedes(d, s, rest);
        ConsKeepsOrder(d[0], rest, s);
      }
    }
  }

  /**
   * `getCategories()`: the distinct non-blank category labels of the
   * products, in the order the backend lists them; `[]` when the query fails.
   */
  function GetCategories(products: map<string, Product>, rows: seq<Product>, fails: bool): (cats: seq<string>)
    requires Lists(rows, products)
    ensures fails ==> cats == []
    ensures NoDuplicates(cats)
    ensures forall c :: c in cats ==> !IsBlank(c)
    ensures !fails ==> forall c :: c in cats <==> !IsBlank(c) && exists k :: k in products && products[k].category == Some(c)
    ensures !fails ==> FirstOccurrenceOrder(cats, Labels(rows))
  {
    if fails then []
    else
      var labels := Labels(rows);
      DistinctOrder(labels);
      NonBlankKeepsOrder(Distinct(labels), labels);
      assert forall c :: (exists k :: k in products && products[k].category == Some(c))
                     <==> (exists i :: 0 <= i < |rows| && rows[i].category == Some(c)) by {
        forall c | exists k :: k in products && products[k].category == Some(c)
          ensures exists i :: 0 <= i < |rows| && rows[i].category == Some(c)
        {
          var k :| k in products && products[k].category == Some(c);
          var i :| 0 <= i < |rows| && rows[i].id == k;
          assert rows[i].category == Some(c);
        }
      }
      NonBlank(Distinct(labels))
  }

  function Ids(rows: seq<Product>): set<string> {
    set i | 0 <= i < |rows| :: rows[i].id
  }

  lemma {:induction false} DistinctIdsCount(rows: seq<Product>)
    requires forall i, j :: 0 <= i < j < |rows| ==> rows[i].id != rows[j].id
    ensures |Ids(rows)| == |rows|
  {
    if |rows| > 0 {
      var init := rows[..|rows| - 1];
      DistinctIdsCount(init);
      assert Ids(rows) == Ids(init) + {rows[|rows| - 1].id};
    }
  }

  /** A listing of the products has one row per product. */
  lemma ListingLength(rows: seq<Product>, products: map<string, Product>)
    requires Lists(rows, products)
    ensures |rows| == |products|
  {
    DistinctIdsCount(rows);
    assert Ids(rows) == products.Keys;
  }

  /**
   * `getCatalog()`: every product once, ordered by name; `[]` when the
   * query fails.
   */
  function GetCatalog(products: map<string, Product>, rows: seq<Product>, fails: bool): (items: seq<Product>)
    requires Lists(rows, products) && SortedByName(rows)
    ensures fails ==> items == []
    ensures !fails ==> Lists(items, products) && |items| == |products| && SortedByName(items)
    ensures !fails ==> forall i :: 0 <= i < |items| ==> items[i].id in products && products[items[i].id] == items[i]
  {
    if fails then [] else ListingLength(rows, products); rows
  }

  /**
   * `${name} | Rp${price} | Stok ${stock}`: the name, the price separator,
   * the rendered price, the stock separator and the rendered stock; it is
   * a single line when the name holds no line break.
   */
  function CatalogLine(p: Product): (line: string)
    ensures LineFor(line, p)
    ensures '\n' !in p.name ==> '\n' !in line
  {
    CatalogLineParts(p);
    CatalogLineSingle(p);
    p.name + " | Rp" + IntToString(p.price) + StockLabel + IntToString(p.stock)
  }

  /**
   * `line` reads as product `p`: the name and the price separator, the
   * rendered price, the stock separator, and the rendered stock. Each
   * rendering is `${n}`: a sign and canonical digits, as the contract of
   * `IntToString` and `Text.RenderingUnique` state.
   */
  predicate LineFor(line: string, p: Product) {
    var head := p.name + " | Rp";
    var k := |head| + |IntToString(p.price)|;
    && k + |StockLabel| < |line|
    && line[..|head|] == head
    && line[|head|..k] == IntToString(p.price)
    && line[k..k + |StockLabel|] == StockLabel
    && line[k + |StockLabel|..] == IntToString(p.stock)
  }

  lemma CatalogLineParts(p: Product)
    ensures LineFor(p.name + " | Rp" + IntToString(p.price) + StockLabel + IntToString(p.stock), p)
  {
    var head := p.name + " | Rp";
    var price := IntToString(p.price);
    var stock := IntToString(p.stock);
    LineParts(head, price, stock);
  }

  lemma CatalogLineSingle(p: Product)
    ensures '\n' !in p.name ==> '\n' !in p.name + " | Rp" + IntToString(p.price) + StockLabel + IntToString(p.stock)
  {
    NoNewlineInNumber(p.price);
    NoNewlineInNumber(p.stock);
  }

  /** The line format has one spelling: a line that reads as `p` is `p`'s catalog line. */
  lemma CatalogLineUnique(line: string, p: Product)
    requires LineFor(line, p)
    ensures line == CatalogLine(p)
  {
    var head := p.name + " | Rp";
    Pieces(line, head, IntToString(p.price), StockLabel, IntToString(p.stock));
  }

  /** A string that holds four given pieces one after another, and nothing else, is their concatenation. */
  lemma Pieces(s: string, a: string, b: string, c: string, d: string)
    requires |a| + |b| + |c| <= |s|
    requires s[..|a|] == a && s[|a|..|a| + |b|] == b
    requires s[|a| + |b|..|a| + |b| + |c|] == c && s[|a| + |b| + |c|..] == d
    ensures s == a + b + c + d
  {
    var i, j, k := |a|, |a| + |b|, |a| + |b| + |c|;
    assert s == s[..i] + s[i..j] + s[j..k] + s[k..];
  }

  /** The four pieces of a catalog line can be read back by position. */
  lemma LineParts(head: string, price: string, stock: string)
    ensures var line := head + price + StockLabel + stock;
      var k := |head| + |price|;
      && line[..|head|] == head
      && line[|head|..k] == price
      && line[k..k + |StockLabel|] == StockLabel
      && line[k + |StockLabel|..] == stock
  {
  }

  const StockLabel := " | Stok "

  /** `catalog.map(...)`: one line per product, in catalog order. */
  function CatalogLines(items: seq<Product>): (lines: seq<string>)
    ensures |lines| == |items|
    ensures forall i {:trigger CatalogLine(items[i])} :: 0 <= i < |items| ==> lines[i] == CatalogLine(items[i])
  {
    seq(|items|, i requires 0 <= i < |items| => CatalogLine(items[i]))
  }

  const EmptyCatalog := "Katalog masih kosong."
  const CatalogHeader := "Daftar produk:"

  /** The text `/katalog` sends: the empty-catalog notice, or the header and the product lines. */
  function CatalogReply(items: seq<Product>): (reply: string)
    ensures |items| == 0 ==> reply == EmptyCatalog
    ensures |items| > 0 ==> StartsWith(reply, CatalogHeader + "\n")
  {
    assert |items| > 0 ==> (CatalogHeader + "\n" + Join(CatalogLines(items), "\n"))[..|CatalogHeader + "\n"|] == CatalogHeader + "\n";
    if |items| == 0 then EmptyCatalog else CatalogHeader + "\n" + Join(CatalogLines(items), "\n")
  }

  lemma NoNewlineInNumber(i: int)
    ensures '\n' !in IntToString(i)
  {
    var digits := NatToString(if i < 0 then -i else i);
    assert forall k :: 0 <= k < |digits| ==> digits[k] != '\n';
  }

  /**
   * The empty-catalog notice is a single line. The notice is a parameter fixed
   * by `requires` so that the verifier does not unroll `Split` on a literal string.
   */
  lemma EmptyCatalogLine(notice: string)
    requires notice == EmptyCatalog
    ensures Split(notice, '\n') == [EmptyCatalog]
  {
    SplitWithoutSeparator(notice, '\n');
  }

  /**
   * When no product name holds a line break, the `/katalog` reply is the
   * empty-catalog notice alone, or the header followed by exactly one line
   * per product, in catalog order.
   */
  lemma CatalogReplyLines(items: seq<Product>)
    requires forall i :: 0 <= i < |items| ==> '\n' !in items[i].name
    ensures |items| == 0 ==> Split(CatalogReply(items), '\n') == [EmptyCatalog]
    ensures |items| > 0 ==> Split(CatalogReply(items), '\n') == [CatalogHeader] + CatalogLines(items)
  {
    if |items| == 0 {
      EmptyCatalogLine(CatalogReply(items));
    } else {
      LinesAreSingle(items);
      HeaderAndLines(CatalogHeader, CatalogLines(items));
    }
  }

  /** Each catalog line is a single line when the names hold no line break. */
  lemma LinesAreSingle(items: seq<Product>)
    requires forall i :: 0 <= i < |items| ==> '\n' !in items[i].name
    ensures forall i :: 0 <= i < |items| ==> '\n' !in CatalogLines(items)[i]
  {
    forall i | 0 <= i < |items| ensures '\n' !in CatalogLines(items)[i] {
      assert CatalogLines(items)[i] == CatalogLine(items[i]);
    }
  }

  /** A header line followed by the joined lines splits back into the header and the lines. */
  lemma HeaderAndLines(header: string, lines: seq<string>)
    requires |lines| > 0 && '\n' !in header
    requires forall i :: 0 <= i < |lines| ==> '\n' !in lines[i]
    ensures Split(header + "\n" + Join(lines, "\n"), '\n') == [header] + lines
  {
    var parts := [header] + lines;
    assert parts[1..] == lines;
    assert header + "\n" + Join(lines, "\n") == Join(parts, "\n");
    SplitJoin(parts, '\n');
  }

  const NoCategories := "Belum ada kategori. Hubungi admin."
  const Welcome := "Selamat datang!"
  const CategoriesHeader := "Kategori tersedia:"

  /**
   * The text `/start` sends: the greeting, then the category list under its
   * header, or the no-category hint when there is none.
   */
  function StartReply(cats: seq<string>): (reply: string)
    ensures |cats| == 0 ==> reply == Welcome + "\n" + NoCategories
    ensures |cats| > 0 ==> StartsWith(reply, Welcome + "\n" + CategoriesHeader + "\n- " + cats[0])
  {
    var head := Welcome + "\n" + CategoriesHeader + "\n- ";
    if |cats| > 0 then
      var body := Join(cats, "\n- ");
      assert body[..|cats[0]|] == cats[0];
      assert (head + body)[..|head + cats[0]|] == head + cats[0];
      head + body
    else Welcome + "\n" + NoCategories
  }

  function Bullets(cats: seq<string>): (lines: seq<string>)
    ensures |lines| == |cats|
  {
    seq(|cats|, i requires 0 <= i < |cats| => "- " + cats[i])
  }

  lemma {:induction false} JoinBullets(cats: seq<string>)
    requires |cats| > 0
    ensures "- " + Join(cats, "\n- ") == Join(Bullets(cats), "\n")
  {
    if |cats| > 1 {
      JoinBullets(cats[1..]);
      assert Bullets(cats)[1..] == Bullets(cats[1..]);
    }
  }

  /**
   * When no label holds a line break, the `/start` reply is the greeting
   * and then either one bullet line per category or the no-category hint.
   */
  lemma StartReplyLines(cats: seq<string>)
    requires forall i :: 0 <= i < |cats| ==> '\n' !in cats[i]
    ensures |cats| == 0 ==> Split(StartReply(cats), '\n') == [Welcome, NoCategories]
    ensures |cats| > 0 ==> Split(StartReply(cats), '\n') == [Welcome, CategoriesHeader] + Bullets(cats)
  {
    if |cats| == 0 {
      NoCategoryLines(cats);
    } else {
      CategoryLines(cats);
    }
  }

  lemma NoCategoryLines(cats: seq<string>)
    requires |cats| == 0
    ensures Split(StartReply(cats), '\n') == [Welcome, NoCategories]
  {
    TwoLines(Welcome, NoCategories);
  }

  lemma CategoryLines(cats: seq<string>)
    requires |cats| > 0 && forall i :: 0 <= i < |cats| ==> '\n' !in cats[i]
    ensures Split(StartReply(cats), '\n') == [Welcome, CategoriesHeader] + Bullets(cats)
  {
    StartReplyShape(cats);
    BulletsAreSingle(cats);
    GreetingThenLines(Welcome, CategoriesHeader, Bullets(cats));
  }

  /** A non-empty `/start` reply is the greeting line, the header line and the bullet lines. */
  lemma StartReplyShape(cats: seq<string>)
    requires |cats| > 0
    ensures StartReply(cats) == Welcome + ['\n'] + (CategoriesHeader + "\n" + Join(Bullets(cats), "\n"))
  {
    JoinBullets(cats);
  }

  /** A first line, a header line and further lines split back into those lines. */
  lemma GreetingThenLines(first: string, header: string, lines: seq<string>)
    requires '\n' !in first && '\n' !in header && |lines| > 0
    requires forall i :: 0 <= i < |lines| ==> '\n' !in lines[i]
    ensures Split(first + ['\n'] + (header + "\n" + Join(lines, "\n")), '\n') == [first, header] + lines
  {
    HeaderAndLines(header, lines);
    SplitAtSeparator(first, header + "\n" + Join(lines, "\n"), '\n');
  }

  /** Two lines joined by a line break split back into the two. */
  lemma TwoLines(first: string, second: string)
    requires '\n' !in first && '\n' !in second
    ensures Split(first + "\n" + second, '\n') == [first, second]
  {
    SplitAtSeparator(first, second, '\n');
    SplitWithoutSeparator(second, '\n');
  }

  /** Each bullet is a single line when the labels hold no line break. */
  lemma BulletsAreSingle(cats: seq<string>)
    requires forall i :: 0 <= i < |cats| ==> '\n' !in cats[i]
    ensures forall i :: 0 <= i < |cats| ==> '\n' !in Bullets(cats)[i]
  {
    forall i | 0 <= i < |cats| ensures '\n' !in Bullets(cats)[i] {
      assert Bullets(cats)[i] == "- " + cats[i];
    }
  }
}
