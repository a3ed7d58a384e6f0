/**
 * The quote collection of the quote manager page: the list of quotes it
 * starts with, the "add quote" form handler (trim both inputs, reject when
 * either is empty, otherwise append and clear the form) and the "show new
 * quote" handler (a fixed message for an empty list, otherwise one quote
 * rendered as HTML text).
 *
 * The page's text inputs become the fields `textInput` and `categoryInput`;
 * the display region becomes the string `ShowRandomQuote` returns; the value
 * of `Math.random()` becomes an index argument.
 */
module Quotes {
  import opened StringTrim

  /** One record of the collection. Equality is structural. */
  datatype Quote = Quote(text: string, category: string)

  datatype Option<T> = None | Some(value: T)

  /** What the add form guarantees of every quote it stores. */
  predicate ValidQuote(q: Quote) {
    q.text != [] && q.category != [] && Trimmed(q.text) && Trimmed(q.category)
  }

  predicate AllValid(qs: seq<Quote>) {
    forall k :: 0 <= k < |qs| ==> ValidQuote(qs[k])
  }

  /** The collection the page starts with. */
  const InitialQuotes: seq<Quote> := [FirstQuote, SecondQuote, ThirdQuote]

  // The two long texts are written in two halves, which keeps their first characters within the verifier's reach.
  const FirstQuote: Quote :=
    Quote("The only limit to our realization " + "of tomorrow is our doubts of today.", "Motivation")
  const SecondQuote: Quote :=
    Quote("Life is what happens " + "when you're busy making other plans.", "Life")
  const ThirdQuote: Quote :=
    Quote("To be or not to be, that is the question.", "Philosophy")

  /** Shown in place of a quote when the collection is empty. */
  const NoQuotesMessage: string := "No quotes available."

  /** The alert raised when the add form is rejected. */
  const RejectAlert: string := "Please enter both a quote and a category."

  /** Put before the rendering of a quote in the confirmation paragraph. */
  const AddedPrefix: string := "New quote added: "

  /** What stands between the quoted text and the category: closing double quote, space, em dash, space, `<em>`. */
  const Separator: string := "\" \U{2014} <em>"

  const Closing: string := "</em>"

  lemma TrimmedByEnds(s: string, first: char, last: char)
    requires s != [] && s[0] == first && s[|s| - 1] == last
    requires !IsWhiteSpace(first) && !IsWhiteSpace(last)
    ensures s != [] && Trimmed(s)
  {
  }

  lemma TrimmedJoin(a: string, b: string)
    requires a != [] && b != [] && !IsWhiteSpace(a[0]) && !IsWhiteSpace(b[|b| - 1])
    ensures Trimmed(a + b)
  {
    assert (a + b)[0] == a[0] && (a + b)[|a + b| - 1] == b[|b| - 1];
  }

  /** The three quotes the page starts with are all ones the add form would store. */
  lemma InitialQuotesValid()
    ensures AllValid(InitialQuotes)
  {
    FirstQuoteValid();
    SecondQuoteValid();
    ThirdQuoteValid();
  }

  lemma FirstQuoteValid()
    ensures ValidQuote(FirstQuote)
  {
    TrimmedJoin("The only limit to our realization ", "of tomorrow is our doubts of today.");
    TrimmedByEnds(FirstQuote.category, 'M', 'n');
  }

  lemma SecondQuoteValid()
    ensures ValidQuote(SecondQuote)
  {
    TrimmedJoin("Life is what happens ", "when you're busy making other plans.");
    TrimmedByEnds(SecondQuote.category, 'L', 'e');
  }

  lemma ThirdQuoteValid()
    ensures ValidQuote(ThirdQuote)
  {
    TrimmedByEnds(ThirdQuote.text, 'T', '.');
    TrimmedByEnds(ThirdQuote.category, 'P', 'y');
  }

  /**
   * The trim-and-validate step of the add form: both inputs are trimmed, and
   * the quote is refused exactly when one of them is empty or whitespace only.
   */
  function Validate(text: string, category: string): (r: Option<Quote>)
    ensures r.None? <==> AllWhiteSpace(text) || AllWhiteSpace(category)
    ensures r.Some? ==> ValidQuote(r.value)
    ensures r.Some? ==> r.value == Quote(Trim(text), Trim(category))
  {
    var t := Trim(text);
    var c := Trim(category);
    if t == "" || c == "" then None else Some(Quote(t, c))
  }

  /** The quotes the add form stores are exactly those it would store again, unchanged, if their fields were typed back in. */
  lemma ValidQuoteAccepted(q: Quote)
    ensures ValidQuote(q) <==> Validate(q.text, q.category) == Some(q)
  {
    TrimFixedPoint(q.text);
    TrimFixedPoint(q.category);
  }

  /** The collection after one use of the add form with the given field values. */
  function AddToCollection(qs: seq<Quote>, text: string, category: string): (r: seq<Quote>)
    ensures r == qs <==> AllWhiteSpace(text) || AllWhiteSpace(category)
    ensures |qs| <= |r| <= |qs| + 1 && r[..|qs|] == qs
    ensures |r| == |qs| + 1 ==> r[|qs|] == Quote(Trim(text), Trim(category))
  {
    match Validate(text, category)
    case None => qs
    case Some(q) =>
      assert (qs + [q])[..|qs|] == qs;
      qs + [q]
  }

  /** One submission keeps a valid collection valid. */
  lemma AddToCollectionValid(qs: seq<Quote>, text: string, category: string)
    requires AllValid(qs)
    ensures AllValid(AddToCollection(qs, text, category))
  {
    match Validate(text, category)
    case None =>
    case Some(q) =>
      var next := qs + [q];
      assert forall k :: 0 <= k < |next| ==> next[k] == if k < |qs| then qs[k] else q;
  }

  /** The collection after a whole session of add-form submissions, in order. */
  function AddAll(qs: seq<Quote>, inputs: seq<(string, string)>): (r: seq<Quote>)
    ensures |qs| <= |r| <= |qs| + |inputs|
    ensures r[..|qs|] == qs
    decreases |inputs|
  {
    if inputs == [] then qs
    else
      var next := AddToCollection(qs, inputs[0].0, inputs[0].1);
      var r := AddAll(next, inputs[1..]);
      assert r[..|qs|] == r[..|next|][..|qs|];
      r
  }

  /** A valid collection stays valid through any sequence of add-form submissions. */
  lemma {:induction false} AddAllValid(qs: seq<Quote>, inputs: seq<(string, string)>)
    requires AllValid(qs)
    ensures AllValid(AddAll(qs, inputs))
    decreases |inputs|
  {
    if inputs != [] {
      var next := AddToCollection(qs, inputs[0].0, inputs[0].1);
      AddToCollectionValid(qs, inputs[0].0, inputs[0].1);
      AddAllValid(next, inputs[1..]);
    }
  }

  /** The display text of one quote: the text in double quotes, an em dash, the category in `<em>`. No escaping is done. */
  function Display(q: Quote): (html: string)
    ensures |html| == 1 + |q.text| + |Separator| + |q.category| + |Closing|
    ensures html[0] == '"' && html[|html| - |Closing|..] == Closing
    ensures html[1..|html| - |Closing|] == q.text + Separator + q.category
  {
    "\"" + q.text + Separator + q.category + Closing
  }

  /** The confirmation paragraph written after a successful add: a fixed prefix, then the quote's display text. */
  function AddedNotice(q: Quote): (r: string)
    ensures |r| == |AddedPrefix| + |Display(q)|
    ensures r[..|AddedPrefix|] == AddedPrefix && r[|AddedPrefix|..] == Display(q)
  {
    AddedPrefix + Display(q)
  }

  /** The confirmation paragraph names the added quote: its part after the prefix parses back to it. */
  lemma AddedNoticeNamesQuote(q: Quote)
    requires '"' !in q.category
    ensures ParseDisplay(AddedNotice(q)[|AddedPrefix|..]) == Some(q)
  {
    DisplayRoundTrip(q);
  }

  /** The position of the last occurrence of `c` in `s`, if any. */
  function LastIndexOf(s: string, c: char): (r: Option<nat>)
    ensures r.None? <==> c !in s
    ensures r.Some? ==> r.value < |s| && s[r.value] == c
    ensures r.Some? ==> forall k :: r.value < k < |s| ==> s[k] != c
  {
    if s == [] then None
    else if s[|s| - 1] == c then Some(|s| - 1)
    else
      assert forall k :: 0 <= k < |s| - 1 ==> s[..|s| - 1][k] == s[k];
      LastIndexOf(s[..|s| - 1], c)
  }

  /**
   * Reads a display text back into a quote: the category is what follows the
   * last double quote (which must open the separator) up to the closing tag.
   */
  function ParseDisplay(html: string): Option<Quote> {
    if |html| < 1 + |Closing| || html[0] != '"' || html[|html| - |Closing|..] != Closing then None
    else
      var mid := html[1..|html| - |Closing|];
      match LastIndexOf(mid, '"')
      case None => None
      case Some(k) =>
        if k + |Separator| <= |mid| && mid[k..k + |Separator|] == Separator
        then Some(Quote(mid[..k], mid[k + |Separator|..]))
        else None
  }

  /**
   * A display text determines its quote whenever the category holds no
   * double quote, and a text that parses is exactly the display text of the
   * quote it parses to.
   */
  lemma DisplayInverse(html: string, q: Quote)
    ensures ParseDisplay(html) == Some(q) <==> html == Display(q) && '"' !in q.category
  {
    if html == Display(q) && '"' !in q.category {
      DisplayRoundTrip(q);
    }
    if ParseDisplay(html) == Some(q) {
      ParseDisplaySound(html, q);
    }
  }

  /** Only the first character of the separator is a double quote. */
  lemma SeparatorShape()
    ensures |Separator| == 8 && Separator[0] == '"'
    ensures forall j :: 1 <= j < |Separator| ==> Separator[j] != '"'
  {
  }

  /** `LastIndexOf` finds `k` when `s[k]` is the character and none follows it. */
  lemma LastIndexOfAt(s: string, c: char, k: nat)
    requires k < |s| && s[k] == c
    requires forall j :: k < j < |s| ==> s[j] != c
    ensures LastIndexOf(s, c) == Some(k)
  {
  }

  /** The three pieces of `a + sep + b` are recovered by slicing. */
  lemma Pieces(a: string, sep: string, b: string)
    ensures var m := a + sep + b;
      m[..|a|] == a && m[|a|..|a| + |sep|] == sep && m[|a| + |sep|..] == b
  {
  }

  /** In `a + sep + b`, where `c` opens `sep` and occurs nowhere after that, the last `c` is at `|a|`. */
  lemma LastOpensMiddle(a: string, sep: string, b: string, c: char)
    requires sep != [] && sep[0] == c && c !in b
    requires forall j :: 1 <= j < |sep| ==> sep[j] != c
    ensures LastIndexOf(a + sep + b, c) == Some(|a|)
  {
    var m := a + sep + b;
    forall j | |a| < j < |m| ensures m[j] != c {
      if j < |a| + |sep| {
        assert m[j] == sep[j - |a|];
      } else {
        assert m[j] == b[j - |a| - |sep|];
      }
    }
    LastIndexOfAt(m, c, |a|);
  }

  /** With no double quote in the category, the last double quote of the middle opens the separator. */
  lemma LastQuoteOpensSeparator(text: string, category: string)
    requires '"' !in category
    ensures LastIndexOf(text + Separator + category, '"') == Some(|text|)
  {
    SeparatorShape();
    LastOpensMiddle(text, Separator, category, '"');
  }

  lemma DisplayRoundTrip(q: Quote)
    requires '"' !in q.category
    ensures ParseDisplay(Display(q)) == Some(q)
  {
    LastQuoteOpensSeparator(q.text, q.category);
    Pieces(q.text, Separator, q.category);
  }

  /** A string with `sep` at offset `k` is the part before, `sep`, and the part after. */
  lemma Unpieces(m: string, sep: string, k: nat)
    requires k + |sep| <= |m| && m[k..k + |sep|] == sep
    ensures m == m[..k] + sep + m[k + |sep|..]
  {
    assert m == m[..k] + m[k..k + |sep|] + m[k + |sep|..];
  }

  /** A string that starts with `open` and ends with `close` is `open`, its middle, and `close`. */
  lemma Unwrap(s: string, open: char, close: string)
    requires 1 + |close| <= |s| && s[0] == open && s[|s| - |close|..] == close
    ensures s == [open] + s[1..|s| - |close|] + close
  {
    assert s == s[..1] + s[1..|s| - |close|] + s[|s| - |close|..];
  }

  /** What a successful parse found: the frame, and the separator at the last double quote `k` of the middle. */
  lemma ParsedPieces(html: string, q: Quote) returns (k: nat)
    requires ParseDisplay(html) == Some(q)
    ensures 1 + |Closing| <= |html| && html[0] == '"' && html[|html| - |Closing|..] == Closing
    ensures var mid := html[1..|html| - |Closing|];
      && k + |Separator| <= |mid| && mid[k..k + |Separator|] == Separator
      && q == Quote(mid[..k], mid[k + |Separator|..])
      && forall j :: k < j < |mid| ==> mid[j] != '"'
  {
    var mid := html[1..|html| - |Closing|];
    k := LastIndexOf(mid, '"').value;
  }

  /** Reassembling the pieces a parse found gives back the display text. */
  lemma Reassembled(html: string, q: Quote, k: nat)
    requires 1 + |Closing| <= |html| && html[0] == '"' && html[|html| - |Closing|..] == Closing
    requires var mid := html[1..|html| - |Closing|];
      k + |Separator| <= |mid| && mid[k..k + |Separator|] == Separator
      && q == Quote(mid[..k], mid[k + |Separator|..])
    ensures html == Display(q)
  {
    Unpieces(html[1..|html| - |Closing|], Separator, k);
    Unwrap(html, '"', Closing);
  }

  lemma ParseDisplaySound(html: string, q: Quote)
    requires ParseDisplay(html) == Some(q)
    ensures html == Display(q) && '"' !in q.category
  {
    var k := ParsedPieces(html, q);
    Reassembled(html, q, k);
    var mid := html[1..|html| - |Closing|];
    forall j | 0 <= j < |q.category| ensures q.category[j] != '"' {
      assert q.category[j] == mid[k + |Separator| + j];
    }
  }

  /** The quote picked by the "show new quote" handler for index `i`: nothing for an empty collection, else an element of it. */
  function Select(qs: seq<Quote>, i: nat): (r: Option<Quote>)
    requires qs != [] ==> i < |qs|
    ensures r.None? <==> qs == []
    ensures r.Some? ==> r.value in qs && r.value == qs[i]
  {
    if qs == [] then None else Some(qs[i])
  }

  /**
   * `Math.floor(Math.random() * n)` over exact reals: for `0 <= r < 1` and a
   * non-empty collection the index is in bounds.
   */
  function RandomIndex(r: real, n: nat): (i: nat)
    requires 0.0 <= r < 1.0 && 0 < n
    ensures i < n
  {
    var x := r * n as real;
    assert 0.0 <= x < n as real by {
      assert r * n as real < 1.0 * n as real;
    }
    x.Floor
  }

  /**
   * The index `Math.floor(Math.random() * n)` picks from a non-empty
   * collection meets the precondition of `Select` and of `ShowRandomQuote`
   * and selects that element.
   */
  lemma RandomIndexSelects(qs: seq<Quote>, r: real)
    requires 0.0 <= r < 1.0 && qs != []
    ensures RandomIndex(r, |qs|) < |qs|
    ensures Select(qs, RandomIndex(r, |qs|)) == Some(qs[RandomIndex(r, |qs|)])
  {
  }

  /** The page's quote state: the collection and the two add-form inputs. */
  class QuoteManager {
    var quotes: seq<Quote>
    var textInput: string
    var categoryInput: string

    /** Every stored quote is one the add form would accept unchanged. */
    ghost predicate Valid()
      reads this
    {
      AllValid(quotes)
    }

    /** The state when the page loads: the initial collection and empty inputs. */
    constructor ()
      ensures quotes == InitialQuotes && textInput == "" && categoryInput == ""
      ensures Valid()
    {
      quotes := InitialQuotes;
      textInput := "";
      categoryInput := "";
      InitialQuotesValid();
    }

    /**
     * The "show new quote" handler with `Math.random()` replaced by the
     * index `i`. It changes nothing and returns what the display shows.
     */
    method ShowRandomQuote(i: nat) returns (html: string)
      requires quotes != [] ==> i < |quotes|
      ensures quotes == [] ==> html == NoQuotesMessage
      ensures quotes != [] ==> html == Display(quotes[i]) && quotes[i] in quotes
    {
      var picked := Select(quotes, i);
      match picked
      case None =>
        html := NoQuotesMessage;
      case Some(q) =>
        html := Display(q);
    }

    /**
     * The "add quote" handler. On rejection it changes nothing and gives the
     * alert text; on success it appends the trimmed quote, clears both inputs
     * and gives the confirmation paragraph.
     */
    method AddQuote() returns (added: bool, message: string)
      modifies this
      ensures added <==> !AllWhiteSpace(old(textInput)) && !AllWhiteSpace(old(categoryInput))
      ensures quotes == AddToCollection(old(quotes), old(textInput), old(categoryInput))
      ensures !added ==> quotes == old(quotes) && textInput == old(textInput)
                         && categoryInput == old(categoryInput) && message == RejectAlert
      ensures added ==> quotes == old(quotes) + [Quote(Trim(old(textInput)), Trim(old(categoryInput)))]
                        && textInput == "" && categoryInput == ""
                        && message == AddedNotice(quotes[|quotes| - 1])
      ensures added ==> |quotes| == |old(quotes)| + 1
                        && forall k :: 0 <= k < |old(quotes)| ==> quotes[k] == old(quotes)[k]
      ensures old(Valid()) ==> Valid()
    {
      var checked := Validate(textInput, categoryInput);
      ghost var before := quotes;
      match checked
      case None =>
        added, message := false, RejectAlert;
        assert AddToCollection(before, textInput, categoryInput) == before;
      case Some(q) =>
        assert AddToCollection(before, textInput, categoryInput) == before + [q];
        if Valid() {
          AddToCollectionValid(quotes, textInput, categoryInput);
        }
        quotes := quotes + [q];
        message := AddedNotice(q);
        textInput := "";
        categoryInput := "";
        added := true;
    }
  }
}
