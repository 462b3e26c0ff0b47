/**
 * The `Click` component of src/Click.jsx as an object: its state hooks are the
 * fields, its handlers the methods. The two backend calls are not made here:
 * what the backend answered is an argument of the handler that awaits it, and
 * the save handler returns the request it sends, so "no request was sent" is
 * something its contract can say.
 */
module ClickForm {
  import opened Wrappers
  import opened JsStrings
  import opened ClickRules

  /** The multipart body of `POST /save`. */
  datatype SaveRequest = SaveRequest(name: string, mobile: string, occupation: string, image: LocalFile)

  /** How `fetch` to `/save` and `response.json()` ended. */
  datatype SaveReply =
    | SaveThrew                              // network failure, a body that is not JSON, or a `null` body
    | SaveResponse(ok: bool, image: ImageField)

  /** How `fetch` to `/all` and `res.json()` ended. */
  datatype FetchReply =
    | FetchThrew                             // network failure or a body that is not JSON
    | FetchNotArray                          // JSON, but not an array
    | FetchArray(items: seq<Entry>)

  /** What the user is told after pressing Submit. */
  datatype SubmitResult = Rejected(error: FormError) | SaveFailed | Saved

  class Click {
    var selected: Option<string>
    var name: string
    var mobile: string
    var file: Option<LocalFile>
    var history: seq<Entry>
    var showHistory: bool
    var balance: int

    /**
     * The balance effect has run for the current history, every amount in the
     * history is the one its occupation looks up to, and only a table key can
     * be selected.
     */
    ghost predicate Valid()
      reads this
    {
      && balance == Balance(history)
      && Derived(history)
      && (selected.Some? ==> selected.value in Occupations)
    }

    /** The initial values of the state hooks. */
    constructor ()
      ensures Valid()
      ensures selected == None && name == "" && mobile == "" && file == None
      ensures history == [] && !showHistory && balance == 0
    {
      selected, name, mobile, file := None, "", "", None;
      history, showHistory, balance := [], false, 0;
    }

    /** An occupation button: `setSelected(key)` with one of the table's keys. */
    method Select(key: string)
      requires Valid() && key in Occupations
      modifies this
      ensures Valid() && selected == Some(key)
      ensures name == old(name) && mobile == old(mobile) && file == old(file)
      ensures history == old(history) && showHistory == old(showHistory) && balance == old(balance)
    {
      selected := Some(key);
    }

    /** The name input's `onChange`. */
    method SetName(value: string)
      requires Valid()
      modifies this
      ensures Valid() && name == value
      ensures selected == old(selected) && mobile == old(mobile) && file == old(file)
      ensures history == old(history) && showHistory == old(showHistory) && balance == old(balance)
    {
      name := value;
    }

    /** The mobile input's `onChange`. */
    method SetMobile(value: string)
      requires Valid()
      modifies this
      ensures Valid() && mobile == value
      ensures selected == old(selected) && name == old(name) && file == old(file)
      ensures history == old(history) && showHistory == old(showHistory) && balance == old(balance)
    {
      mobile := value;
    }

    /** The file input's `onChange`: the first picked file, or none when the pick was cancelled. */
    method SetFile(picked: Option<LocalFile>)
      requires Valid()
      modifies this
      ensures Valid() && file == picked
      ensures selected == old(selected) && name == old(name) && mobile == old(mobile)
      ensures history == old(history) && showHistory == old(showHistory) && balance == old(balance)
    {
      file := picked;
    }

    /**
     * `handleSubmit`. The checks run in order and the first failure returns
     * without a request; otherwise the request is `sent` and `reply` is what
     * came back. Only a successful reply changes the state: one entry for the
     * submitted values is appended, and the form is cleared.
     */
    method Submit(reply: SaveReply, now: string) returns (result: SubmitResult, sent: Option<SaveRequest>)
      requires Valid()
      modifies this
      ensures Valid()
      ensures var err := Validate(old(name), old(mobile), old(selected), old(file));
        && (err.Some? <==> sent.None?)
        && (err.Some? ==> result == Rejected(err.value))
      ensures sent.Some? ==>
        sent == Some(SaveRequest(old(name), old(mobile), old(selected).value, old(file).value))
      ensures result == Saved <==>
        sent.Some? && reply.SaveResponse? && reply.ok && !reply.image.ImageNotString?
      ensures sent.Some? && result != Saved ==> result == SaveFailed
      ensures result != Saved ==>
        && history == old(history) && balance == old(balance)
        && selected == old(selected) && name == old(name) && mobile == old(mobile) && file == old(file)
      ensures result == Saved ==>
        var tier := old(selected).value;
        && history == old(history) + [Entry(old(name), old(mobile), tier,
             SavedImageName(reply.image, old(file).value.name).value, now, Some(AmountFor(tier)))]
        && balance == old(balance) + AmountFor(tier)
        && name == "" && mobile == "" && file == None && selected == None
      ensures showHistory == old(showHistory)
    {
      var err := Validate(name, mobile, selected, file);
      if err.Some? {
        return Rejected(err.value), None;
      }
      var tier := selected.value;
      var amount := AmountFor(tier);
      sent := Some(SaveRequest(name, mobile, tier, file.value));
      if !reply.SaveResponse? || !reply.ok {
        return SaveFailed, sent;
      }
      var image := SavedImageName(reply.image, file.value.name);
      if image.None? {
        return SaveFailed, sent;
      }
      Commit(Entry(name, mobile, tier, image.value, now, Some(amount)));
      result := Saved;
    }

    /** The writes after a successful save: append the record, then clear the form. */
    method Commit(entry: Entry)
      requires Valid() && entry.amount == Some(AmountFor(entry.occupation))
      modifies this
      ensures Valid()
      ensures history == old(history) + [entry] && balance == old(balance) + Contribution(entry)
      ensures name == "" && mobile == "" && file == None && selected == None
      ensures showHistory == old(showHistory)
    {
      BalanceAppend(history, entry);
      DerivedAppend(history, entry);
      history := history + [entry];
      balance := Balance(history);  // the balance effect
      name, mobile, file, selected := "", "", None, None;
    }

    /**
     * `fetchHistory`. An array replaces the history by the same records with
     * their amounts recomputed and shows the panel; anything else keeps both.
     */
    method FetchHistory(reply: FetchReply) returns (loaded: bool)
      requires Valid()
      modifies this
      ensures Valid()
      ensures loaded <==> reply.FetchArray?
      ensures loaded ==> history == WithDerivedAmounts(reply.items) && showHistory
      ensures !loaded ==>
        history == old(history) && showHistory == old(showHistory) && balance == old(balance)
      ensures selected == old(selected) && name == old(name) && mobile == old(mobile) && file == old(file)
    {
      if !reply.FetchArray? {
        return false;
      }
      history := WithDerivedAmounts(reply.items);
      balance := Balance(history);  // the balance effect
      showHistory := true;
      loaded := true;
    }

    /**
     * The Show/Hide History button: while hidden it fetches (and `reply` is the
     * answer), while shown it hides the panel and keeps the history.
     */
    method Toggle(reply: FetchReply) returns (fetched: bool)
      requires Valid()
      modifies this
      ensures Valid()
      ensures fetched <==> !old(showHistory)
      ensures fetched && reply.FetchArray? ==> history == WithDerivedAmounts(reply.items) && showHistory
      ensures fetched && !reply.FetchArray? ==>
        history == old(history) && showHistory == old(showHistory) && balance == old(balance)
      ensures !fetched ==> !showHistory && history == old(history) && balance == old(balance)
      ensures selected == old(selected) && name == old(name) && mobile == old(mobile) && file == old(file)
    {
      if !showHistory {
        var _ := FetchHistory(reply);
        fetched := true;
      } else {
        showHistory := false;
        fetched := false;
      }
    }
  }

  /**
   * A full submission on a fresh form that passes the checks and is answered
   * with `dir/base` gives one record stored as `base`, and a balance equal to
   * its amount. SampleSubmission instantiates it.
   */
  method SubmitOnce(name: string, mobile: string, tier: string, picked: LocalFile, dir: string, base: string, now: string)
    returns (result: SubmitResult, h: seq<Entry>, balance: int)
    requires tier in Occupations && Validate(name, mobile, Some(tier), Some(picked)) == None
    requires base != [] && '/' !in base
    ensures result == Saved
    ensures h == [Entry(name, mobile, tier, base, now, Some(AmountFor(tier)))]
    ensures balance == AmountFor(tier)
  {
    var c := new Click();
    c.SetName(name);
    c.SetMobile(mobile);
    c.Select(tier);
    c.SetFile(Some(picked));
    var reply := SaveResponse(true, ImageString(dir + "/" + base));
    SavedImageNameOfPath(dir, base, picked.name);
    var sent;
    result, sent := c.Submit(reply, now);
    h, balance := c.history, c.balance;
  }

  /**
   * The sample form "Asha", "9876543210", "Student" with a picked file,
   * answered with "/uploads/img1.jpg": one record stored as "img1.jpg", and
   * a balance of 200.
   */
  method SampleSubmission(picked: LocalFile, now: string) returns (h: seq<Entry>, balance: int)
    ensures |h| == 1 && h[0].image == "img1.jpg" && h[0].amount == Some(200)
    ensures balance == 200
  {
    SampleTier();
    SampleBaseName();
    SampleFormValid(picked);
    var result;
    result, h, balance := SubmitOnce("Asha", "9876543210", "Student", picked, "/uploads", "img1.jpg", now);
  }

  /**
   * Show, hide, show: each show fetches again (two fetches in all), and the
   * hide keeps what the first fetch loaded.
   */
  method ShowHideShow(first: FetchReply, second: FetchReply) returns (fetches: nat, kept: bool)
    requires first.FetchArray?
    ensures fetches == 2 && kept
  {
    var c := new Click();
    var f1 := c.Toggle(first);
    var loaded := c.history;
    var f2 := c.Toggle(second);
    kept := c.history == loaded && !c.showHistory;
    var f3 := c.Toggle(second);
    fetches := (if f1 then 1 else 0) + (if f2 then 1 else 0) + (if f3 then 1 else 0);
  }
}
