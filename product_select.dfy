/** Pre-selection in the product drop-down of the inquiry form: from the `product`
    URL parameter when the page loads, and from the grade named in a product card's
    title when that card's quote button is clicked. */
module ProductSelect {
  import opened Wrappers
  import opened Text

  /** An `<option>`: its value and its selectedness. */
  datatype SelectOption = SelectOption(value: string, selected: bool)

  /** The two pre-selection rules: an option is picked by the `product` URL parameter, or
      by the title of the product card whose quote button was clicked. */
  datatype Rule = ByProduct(product: string) | ByQuoteTitle(title: string)

  /** The URL rule: the lower-cased option value contains the lower-cased parameter, that
      is, the lower-cased parameter occurs in it at some offset. */
  function ProductMatches(product: string, value: string): (r: bool)
    ensures r <==> exists i: nat :: OccursAt(Lower(value), Lower(product), i)
  {
    ContainsIff(Lower(value), Lower(product));
    Contains(Lower(value), Lower(product))
  }

  /** The quote rule, tried grade by grade: a title naming `Grade A` picks options whose
      value contains `Premium Grade A`; failing that, `Grade B` picks `Industrial Grade B`;
      failing that, `Grade C` picks `Commercial Grade C`. */
  function QuoteMatches(title: string, value: string): (r: bool)
    ensures r <==>
      (Contains(title, "Grade A") && Contains(value, "Premium Grade A"))
      || (Contains(title, "Grade B") && Contains(value, "Industrial Grade B"))
      || (Contains(title, "Grade C") && Contains(value, "Commercial Grade C"))
  {
    if Contains(title, "Grade A") && Contains(value, "Premium Grade A") then true
    else if Contains(title, "Grade B") && Contains(value, "Industrial Grade B") then true
    else Contains(title, "Grade C") && Contains(value, "Commercial Grade C")
  }

  predicate Matches(rule: Rule, value: string) {
    match rule
    case ByProduct(product) => ProductMatches(product, value)
    case ByQuoteTitle(title) => QuoteMatches(title, value)
  }

  function Values(opts: seq<SelectOption>): seq<string> {
    seq(|opts|, k requires 0 <= k < |opts| => opts[k].value)
  }

  /** The position of the last of the first `n` values the rule picks, or -1 if it picks none. */
  function LastMatch(values: seq<string>, rule: Rule, n: nat): (r: int)
    requires n <= |values|
    ensures -1 <= r < n
    ensures r >= 0 ==> Matches(rule, values[r])
    ensures forall j :: r < j < n ==> !Matches(rule, values[j])
  {
    if n == 0 then -1
    else if Matches(rule, values[n - 1]) then n - 1
    else LastMatch(values, rule, n - 1)
  }

  /** The options after `option.selected = true` on the option at position `k`. In a
      multiple-choice list only that option changes; in a single-choice list every other
      option is deselected. */
  function SetSelected(opts: seq<SelectOption>, k: nat, multiple: bool): (r: seq<SelectOption>)
    ensures |r| == |opts|
    ensures k < |opts| ==> r[k].selected
    ensures forall j :: 0 <= j < |opts| ==> r[j].value == opts[j].value
    ensures forall j :: 0 <= j < |opts| && j != k ==> r[j].selected == (multiple && opts[j].selected)
  {
    seq(|opts|, j requires 0 <= j < |opts| =>
      opts[j].(selected := j == k || (multiple && opts[j].selected)))
  }

  /** The options after `option.selected = true` has been set, in order, on every one of the
      first `n` options the rule picks. Values never change. */
  function Selecting(opts: seq<SelectOption>, rule: Rule, multiple: bool, n: nat): (r: seq<SelectOption>)
    requires n <= |opts|
    ensures |r| == |opts|
    ensures forall j :: 0 <= j < |opts| ==> r[j].value == opts[j].value
  {
    if n == 0 then opts
    else
      var visited := Selecting(opts, rule, multiple, n - 1);
      if Matches(rule, opts[n - 1].value) then SetSelected(visited, n - 1, multiple) else visited
  }

  /** The options after the whole list has been visited. */
  function AfterSelecting(opts: seq<SelectOption>, rule: Rule, multiple: bool): seq<SelectOption> {
    Selecting(opts, rule, multiple, |opts|)
  }

  /** What the visits leave selected. In a multiple-choice list each assignment only adds
      its option. In a single-choice list each assignment also clears all the others, so
      the last picked option is the one left selected, and if nothing has been picked
      nothing has changed. */
  lemma {:induction false} SelectingAt(opts: seq<SelectOption>, rule: Rule, multiple: bool, n: nat, j: nat)
    requires n <= |opts| && j < |opts|
    ensures Selecting(opts, rule, multiple, n)[j].selected ==
      if multiple then opts[j].selected || (j < n && Matches(rule, opts[j].value))
      else
        var last := LastMatch(Values(opts), rule, n);
        if last < 0 then opts[j].selected else j == last
  {
    if n > 0 {
      SelectingAt(opts, rule, multiple, n - 1, j);
      assert Values(opts)[n - 1] == opts[n - 1].value;
    }
  }

  /** In a multiple-choice list every option the rule picks ends up selected, and no option
      is deselected. */
  lemma MultipleKeepsAndAdds(opts: seq<SelectOption>, rule: Rule, k: nat)
    requires k < |opts|
    ensures AfterSelecting(opts, rule, true)[k].value == opts[k].value
    ensures AfterSelecting(opts, rule, true)[k].selected <==>
      opts[k].selected || Matches(rule, opts[k].value)
  {
    SelectingAt(opts, rule, true, |opts|, k);
  }

  /** In a single-choice list in which the rule picks something, exactly one option ends up
      selected: a picked one, after which no other option is picked. */
  lemma SingleEndsOnLastMatch(opts: seq<SelectOption>, rule: Rule, k: nat)
    requires k < |opts| && Matches(rule, opts[k].value)
    ensures var after := AfterSelecting(opts, rule, false);
      exists m :: 0 <= m < |opts| && after[m].selected && Matches(rule, opts[m].value)
        && k <= m
        && (forall j :: 0 <= j < |opts| && after[j].selected ==> j == m)
        && (forall j :: m < j < |opts| ==> !Matches(rule, opts[j].value))
  {
    var m := LastMatch(Values(opts), rule, |opts|);
    forall j | 0 <= j < |opts| {
      SelectingAt(opts, rule, false, |opts|, j);
    }
    assert Values(opts)[k] == opts[k].value;
    assert m >= 0 && Values(opts)[m] == opts[m].value;
    forall j | m < j < |opts| ensures !Matches(rule, opts[j].value) {
      assert Values(opts)[j] == opts[j].value;
    }
  }

  /** An empty `product` parameter matches every option, since every string contains the
      empty string. */
  lemma EmptyProductMatchesAll(value: string)
    ensures ProductMatches("", value)
  {
    ContainsEmpty(Lower(value));
  }

  /** The URL rule ignores the case of ASCII letters in the parameter: two parameters
      that agree once lower-cased pick the same options. */
  lemma ProductMatchIgnoresCase(product: string, other: string, value: string)
    requires Lower(product) == Lower(other)
    ensures ProductMatches(product, value) == ProductMatches(other, value)
  {
  }

  /** `?product=QUARTZ` and `?product=quartz` pick the same options. */
  lemma ProductMatchSample(value: string)
    ensures ProductMatches("QUARTZ", value) == ProductMatches("quartz", value)
  {
    assert Lower("QUARTZ") == Lower("quartz");
    ProductMatchIgnoresCase("QUARTZ", "quartz", value);
  }

  /** An option the quote rule picks names the same grade as the card's title. */
  lemma QuoteMatchSharesGrade(title: string, value: string)
    requires QuoteMatches(title, value)
    ensures (Contains(title, "Grade A") && Contains(value, "Grade A"))
         || (Contains(title, "Grade B") && Contains(value, "Grade B"))
         || (Contains(title, "Grade C") && Contains(value, "Grade C"))
  {
    if Contains(title, "Grade A") && Contains(value, "Premium Grade A") {
      assert "Premium Grade A"[8..15] == "Grade A";
      OccursContains("Premium Grade A", "Grade A", 8);
      ContainsTransitive(value, "Premium Grade A", "Grade A");
    } else if Contains(title, "Grade B") && Contains(value, "Industrial Grade B") {
      assert "Industrial Grade B"[11..18] == "Grade B";
      OccursContains("Industrial Grade B", "Grade B", 11);
      ContainsTransitive(value, "Industrial Grade B", "Grade B");
    } else {
      assert "Commercial Grade C"[11..18] == "Grade C";
      OccursContains("Commercial Grade C", "Grade C", 11);
      ContainsTransitive(value, "Commercial Grade C", "Grade C");
    }
  }

  /** A title naming none of the three grades picks no option. */
  lemma UngradedTitlePicksNothing(title: string, value: string)
    requires !Contains(title, "Grade A") && !Contains(title, "Grade B") && !Contains(title, "Grade C")
    ensures !QuoteMatches(title, value)
  {
  }

  /** The `<select id="product">` element: its options, and whether it has `multiple`. */
  class Select {
    const options: array<SelectOption>
    const multiple: bool

    constructor (opts: seq<SelectOption>, isMultiple: bool)
      ensures fresh(options) && options[..] == opts && multiple == isMultiple
    {
      options := new SelectOption[|opts|](k requires 0 <= k < |opts| => opts[k]);
      multiple := isMultiple;
    }

    /** `option.selected = true` on the option at position `k`. */
    method SelectAt(k: nat)
      requires k < options.Length
      modifies options
      ensures options[..] == SetSelected(old(options[..]), k, multiple)
    {
      if !multiple {
        forall j | 0 <= j < options.Length {
          options[j] := options[j].(selected := false);
        }
      }
      options[k] := options[k].(selected := true);
    }

    /** The loop over the options shared by both rules: each option the rule picks gets
        `selected = true`, in order. */
    method SelectWhere(rule: Rule)
      modifies options
      ensures options[..] == AfterSelecting(old(options[..]), rule, multiple)
    {
      ghost var before := options[..];
      var i := 0;
      while i < options.Length
        invariant 0 <= i <= options.Length
        invariant options[..] == Selecting(before, rule, multiple, i)
      {
        if Matches(rule, options[i].value) {
          SelectAt(i);
        }
        i := i + 1;
      }
    }

    /** The page-load autofill: with a `product` parameter, selects the options whose
        lower-cased value contains the lower-cased parameter; without one, does nothing. */
    method AutofillFromUrl(product: Option<string>)
      modifies options
      ensures product.None? ==> options[..] == old(options[..])
      ensures product.Some? ==>
        options[..] == AfterSelecting(old(options[..]), ByProduct(product.value), multiple)
    {
      if product.Some? {
        SelectWhere(ByProduct(product.value));
      }
    }

    /** The quote-button prefill: when the clicked button sits in a product card, selects
        the options that card's title picks; outside a card, does nothing. */
    method PrefillFromQuote(cardTitle: Option<string>)
      modifies options
      ensures cardTitle.None? ==> options[..] == old(options[..])
      ensures cardTitle.Some? ==>
        options[..] == AfterSelecting(old(options[..]), ByQuoteTitle(cardTitle.value), multiple)
    {
      if cardTitle.Some? {
        SelectWhere(ByQuoteTitle(cardTitle.value));
      }
    }
  }
}
