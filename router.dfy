/**
 * The command router: which command a message text is, decided by prefix
 * in the order `/start`, `/katalog`, `/order`, and the product id argument
 * of `/order`, taken as `text.split(" ")[1]`.
 */
module Router {
  import opened Model
  import opened Text

  datatype Command = Start | ShowCatalog | PlaceOrder(productId: Option<string>) | Unrecognized

  /** `text.split(" ")[1]`, where a missing or empty part counts as absent. */
  function OrderArgument(text: string): (arg: Option<string>)
    ensures arg.Some? ==> arg.value != "" && ' ' !in arg.value
  {
    var parts := Split(text, ' ');
    if |parts| > 1 && parts[1] != "" then Some(parts[1]) else None
  }

  /** The index of the first space in `s`, or `|s|` when there is none. */
  function FirstSpace(s: string): (i: nat)
    ensures i <= |s| && ' ' !in s[..i]
    ensures i < |s| ==> s[i] == ' '
  {
    if |s| == 0 || s[0] == ' ' then 0
    else
      assert s[1..][..FirstSpace(s[1..])] == s[1..1 + FirstSpace(s[1..])];
      1 + FirstSpace(s[1..])
  }

  /**
   * The argument found by scanning: the run of non-space characters right
   * after the first space, absent when there is no space or the run is empty.
   */
  function ArgumentByScan(text: string): Option<string> {
    var i := FirstSpace(text);
    if i == |text| then None
    else
      var tail := text[i + 1..];
      var word := tail[..FirstSpace(tail)];
      if word == "" then None else Some(word)
  }

  /** Splitting and indexing picks out exactly the word after the first space. */
  lemma OrderArgumentByScan(text: string)
    ensures OrderArgument(text) == ArgumentByScan(text)
  {
    var i := FirstSpace(text);
    if i == |text| {
      assert text[..i] == text;
      SplitWithoutSeparator(text, ' ');
    } else {
      var tail := text[i + 1..];
      assert text == text[..i] + [' '] + tail;
      SplitAtSeparator(text[..i], tail, ' ');
      var j := FirstSpace(tail);
      if j == |tail| {
        assert tail[..j] == tail;
        SplitWithoutSeparator(tail, ' ');
      } else {
        assert tail == tail[..j] + [' '] + tail[j + 1..];
        SplitAtSeparator(tail[..j], tail[j + 1..], ' ');
      }
    }
  }

  /** `/order` alone has no argument. */
  lemma NoArgumentExample()
    ensures OrderArgument("/order") == None
  {
    SplitWithoutSeparator("/order", ' ');
  }

  /** A double space leaves the argument empty, so it counts as absent. */
  lemma EmptyArgumentExample()
    ensures OrderArgument("/order  p1") == None
  {
    var parts := ["/order", "", "p1"];
    assert "/order  p1" == Join(parts, " ");
    SplitJoin(parts, ' ');
  }

  /** `/order p1` names product `p1`. */
  lemma ArgumentExample()
    ensures OrderArgument("/order p1") == Some("p1")
  {
    var parts := ["/order", "p1"];
    assert "/order p1" == Join(parts, " ");
    SplitJoin(parts, ' ');
  }

  /** No text starts with two of the three command prefixes. */
  lemma PrefixesExclusive(text: string)
    ensures !(StartsWith(text, "/start") && StartsWith(text, "/katalog"))
    ensures !(StartsWith(text, "/start") && StartsWith(text, "/order"))
    ensures !(StartsWith(text, "/katalog") && StartsWith(text, "/order"))
  {
    if |text| >= 2 {
      assert StartsWith(text, "/start") ==> text[1] == 's' by {
        if StartsWith(text, "/start") { assert text[..6][1] == text[1]; }
      }
      assert StartsWith(text, "/katalog") ==> text[1] == 'k' by {
        if StartsWith(text, "/katalog") { assert text[..8][1] == text[1]; }
      }
      assert StartsWith(text, "/order") ==> text[1] == 'o' by {
        if StartsWith(text, "/order") { assert text[..6][1] == text[1]; }
      }
    }
  }

  /**
   * The command a text selects. Because the three prefixes exclude each
   * other, each command is chosen exactly when the text has its prefix.
   */
  function Parse(text: string): (cmd: Command)
    ensures cmd.Start? <==> StartsWith(text, "/start")
    ensures cmd.ShowCatalog? <==> StartsWith(text, "/katalog")
    ensures cmd.PlaceOrder? <==> StartsWith(text, "/order")
    ensures cmd.Unrecognized? <==> !StartsWith(text, "/start") && !StartsWith(text, "/katalog") && !StartsWith(text, "/order")
    ensures cmd.PlaceOrder? ==> cmd.productId == OrderArgument(text)
  {
    PrefixesExclusive(text);
    if StartsWith(text, "/start") then Start
    else if StartsWith(text, "/katalog") then ShowCatalog
    else if StartsWith(text, "/order") then PlaceOrder(OrderArgument(text))
    else Unrecognized
  }
}
