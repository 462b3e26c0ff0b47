/**
 * The pure rules of the registration form in src/Click.jsx: the occupations
 * table and its amount lookup, the history entries, the balance they add up
 * to, the amounts recomputed for a fetched history, the order in which a
 * submission is validated and the name under which its image is stored.
 */
module ClickRules {
  import opened Wrappers
  import opened JsStrings

  /** One row of the `occupations` table: the button caption (`label`) and the pledge amount. */
  datatype Occupation = Occupation(caption: string, amount: int)

  /** The `occupations` table, keyed exactly as the component keys it. */
  const Occupations: map<string, Occupation> := map[
    "Student" := Occupation("Student :- 200", 200),
    "Private job" := Occupation("Private job :- 350", 350),
    "Gorvament job" := Occupation("Gorvament job :- 1000", 1000)
  ]

  /** The amount looked up for a key (src/Click.jsx:41, 103): the table's amount, 0 for any other key. */
  function AmountFor(key: string): (amount: int)
    ensures key == "Student" ==> amount == 200
    ensures key == "Private job" ==> amount == 350
    ensures key == "Gorvament job" ==> amount == 1000
    ensures key !in Occupations ==> amount == 0
    ensures amount != 0 <==> key in Occupations
  {
    if key in Occupations then Occupations[key].amount else 0
  }

  /**
   * A history record: what the form appends after a save, or one element of the
   * backend's list. `amount` is absent when the backend sent none.
   */
  datatype Entry = Entry(
    name: string,
    mobile: string,
    occupation: string,
    image: string,
    createdAt: string,
    amount: Option<int>)

  /** What one entry adds to the balance: its amount, or 0 when it has none (src/Click.jsx:30). */
  function Contribution(e: Entry): int {
    e.amount.GetOr(0)
  }

  /** The balance of a history: the contributions of its entries summed from the left (src/Click.jsx:30). */
  function Balance(h: seq<Entry>): int {
    if h == [] then 0 else Balance(h[..|h| - 1]) + Contribution(h[|h| - 1])
  }

  /** Appending one entry adds exactly its contribution to the balance. */
  lemma BalanceAppend(h: seq<Entry>, e: Entry)
    ensures Balance(h + [e]) == Balance(h) + Contribution(e)
  {
    assert (h + [e])[..|h|] == h;
  }

  /** The balance of two pieces of history adds up. */
  lemma {:induction false} BalanceConcat(a: seq<Entry>, b: seq<Entry>)
    ensures Balance(a + b) == Balance(a) + Balance(b)
  {
    if b == [] {
      assert a + b == a;
    } else {
      var c := b[..|b| - 1];
      BalanceConcat(a, c);
      assert a + b == (a + c) + [b[|b| - 1]];
      BalanceAppend(a + c, b[|b| - 1]);
    }
  }

  /** Every entry's amount is the one its occupation looks up to. */
  predicate Derived(h: seq<Entry>) {
    forall i :: 0 <= i < |h| ==> h[i].amount == Some(AmountFor(h[i].occupation))
  }

  /** Appending an entry whose amount is derived keeps the whole history derived. */
  lemma DerivedAppend(h: seq<Entry>, e: Entry)
    requires Derived(h) && e.amount == Some(AmountFor(e.occupation))
    ensures Derived(h + [e])
  {
    var h' := h + [e];
    forall i | 0 <= i < |h'| ensures h'[i].amount == Some(AmountFor(h'[i].occupation)) {
      if i < |h| {
        assert h'[i] == h[i];
      }
    }
  }

  /** `e` with its amount taken from the table rather than from the wire. */
  function WithDerivedAmount(e: Entry): (r: Entry)
    ensures && r.name == e.name && r.mobile == e.mobile && r.occupation == e.occupation
            && r.image == e.image && r.createdAt == e.createdAt
    ensures r.amount == Some(AmountFor(e.occupation))
  {
    e.(amount := Some(AmountFor(e.occupation)))
  }

  /**
   * The history built from a fetched list (src/Click.jsx:101-104): the same
   * records in the same order, every other field kept, every amount recomputed.
   */
  function WithDerivedAmounts(raw: seq<Entry>): (h: seq<Entry>)
    ensures |h| == |raw|
    ensures forall i :: 0 <= i < |h| ==> h[i] == WithDerivedAmount(raw[i])
    ensures Derived(h)
  {
    if raw == [] then [] else [WithDerivedAmount(raw[0])] + WithDerivedAmounts(raw[1..])
  }

  /** Recomputing the amounts of a history whose amounts are already derived changes nothing. */
  lemma DerivedFixpoint(h: seq<Entry>)
    requires Derived(h)
    ensures WithDerivedAmounts(h) == h
  {
    var r := WithDerivedAmounts(h);
    assert forall i :: 0 <= i < |h| ==> r[i] == h[i];
  }

  /** Recomputing twice is recomputing once. */
  lemma DerivedIdempotent(raw: seq<Entry>)
    ensures WithDerivedAmounts(WithDerivedAmounts(raw)) == WithDerivedAmounts(raw)
  {
    DerivedFixpoint(WithDerivedAmounts(raw));
  }

  /** The sum of the table amounts of the records' occupations, folded from the left. */
  function OccupationTotal(raw: seq<Entry>): int {
    if raw == [] then 0 else OccupationTotal(raw[..|raw| - 1]) + AmountFor(raw[|raw| - 1].occupation)
  }

  /** The balance of a fetched history is the total of its occupations' table amounts. */
  lemma {:induction false} BalanceOfDerived(raw: seq<Entry>)
    ensures Balance(WithDerivedAmounts(raw)) == OccupationTotal(raw)
  {
    if raw != [] {
      var n := |raw| - 1;
      var h := WithDerivedAmounts(raw);
      assert Balance(h) == Balance(h[..n]) + Contribution(h[n]);
      WithDerivedPrefix(raw, n);
      BalanceOfDerived(raw[..n]);
    }
  }

  /** Records that agree on their occupations have the same occupation total. */
  lemma {:induction false} TotalByOccupations(raw1: seq<Entry>, raw2: seq<Entry>)
    requires |raw1| == |raw2|
    requires forall i :: 0 <= i < |raw1| ==> raw1[i].occupation == raw2[i].occupation
    ensures OccupationTotal(raw1) == OccupationTotal(raw2)
  {
    if raw1 != [] {
      var n := |raw1| - 1;
      var init1, init2 := raw1[..n], raw2[..n];
      assert forall i :: 0 <= i < n ==> init1[i].occupation == init2[i].occupation by {
        forall i | 0 <= i < n ensures init1[i].occupation == init2[i].occupation {
          assert init1[i] == raw1[i] && init2[i] == raw2[i];
        }
      }
      TotalByOccupations(init1, init2);
    }
  }

  /**
   * The balance of a fetched history depends on the occupations alone: two
   * responses that agree on them give the same balance, whatever amounts the
   * backend sent.
   */
  lemma BalanceIgnoresWireAmounts(raw1: seq<Entry>, raw2: seq<Entry>)
    requires |raw1| == |raw2|
    requires forall i :: 0 <= i < |raw1| ==> raw1[i].occupation == raw2[i].occupation
    ensures Balance(WithDerivedAmounts(raw1)) == Balance(WithDerivedAmounts(raw2))
  {
    BalanceOfDerived(raw1);
    BalanceOfDerived(raw2);
    TotalByOccupations(raw1, raw2);
  }

  /** The derived amounts of a prefix are the prefix of the derived amounts. */
  lemma WithDerivedPrefix(raw: seq<Entry>, n: nat)
    requires n <= |raw|
    ensures WithDerivedAmounts(raw[..n]) == WithDerivedAmounts(raw)[..n]
  {
    var a, b := WithDerivedAmounts(raw[..n]), WithDerivedAmounts(raw)[..n];
    forall i | 0 <= i < n ensures a[i] == b[i] {
      assert raw[..n][i] == raw[i];
    }
  }

  /** A history of derived amounts has a balance between 0 and 1000 per record. */
  lemma {:induction false} DerivedBalanceBounds(h: seq<Entry>)
    requires Derived(h)
    ensures 0 <= Balance(h) <= 1000 * |h|
  {
    if h != [] {
      var init := h[..|h| - 1];
      assert Derived(init) by {
        forall i | 0 <= i < |init| ensures init[i].amount == Some(AmountFor(init[i].occupation)) {
          assert init[i] == h[i];
        }
      }
      DerivedBalanceBounds(init);
    }
  }

  /** The local file the user picked; only its `name` is read. */
  datatype LocalFile = LocalFile(name: string)

  /** The `image` field of the save endpoint's JSON reply. */
  datatype ImageField =
    | ImageAbsent              // `null` or missing: `?.` yields `undefined`
    | ImageString(ref: string) // a path or reference such as "/uploads/img1.jpg"
    | ImageNotString           // any other JSON value: `.split` is not a function and throws

  /**
   * The name the new record stores for its image (src/Click.jsx:64). `None` is the exception a
   * non-string reference raises; otherwise the last path segment of the
   * reference, or the local file name when the reference is absent or that
   * segment is empty.
   */
  function SavedImageName(image: ImageField, fileName: string): (r: Option<string>)
    ensures r.None? <==> image.ImageNotString?
    ensures image.ImageAbsent? ==> r == Some(fileName)
    ensures image.ImageString? ==> forall seg :: EndsWithSegment(image.ref, seg, '/') ==>
      r == Some(if seg == [] then fileName else seg)
  {
    match image
    case ImageAbsent => Some(fileName)
    case ImageNotString => None
    case ImageString(s) =>
      var last := Last(Split(s, '/'));
      LastSegment(s, '/');
      assert forall seg :: EndsWithSegment(s, seg, '/') ==> seg == last by {
        forall seg | EndsWithSegment(s, seg, '/') ensures seg == last {
          SegmentUnique(s, seg, last, '/');
        }
      }
      if last == "" then Some(fileName) else Some(last)
  }

  /** A reference ending in a non-empty, slash-free name is stored under that name. */
  lemma SavedImageNameOfPath(dir: string, base: string, fileName: string)
    requires base != [] && '/' !in base
    ensures SavedImageName(ImageString(dir + "/" + base), fileName) == Some(base)
  {
    var s := dir + "/" + base;
    SplitAtSeparator(dir, base, '/');
    SplitNoSeparator(base, '/');
    assert Last(Split(s, '/')) == base;
  }

  /** The sample reply "/uploads/img1.jpg" stores the image as "img1.jpg". */
  lemma SampleImageName(fileName: string)
    ensures SavedImageName(ImageString("/uploads/img1.jpg"), fileName) == Some("img1.jpg")
  {
    var dir, base := "/uploads", "img1.jpg";
    SavedImageNameOfPath(dir, base, fileName);
    assert dir + "/" + base == "/uploads/img1.jpg";
  }

  /** The sample reference's final segment is non-empty and has no slash. */
  lemma SampleBaseName()
    ensures "img1.jpg" != [] && '/' !in "img1.jpg"
  {
  }

  /**
   * The sample list record of occupation "Private job" is loaded with amount
   * 350, whatever amount the backend put on it.
   */
  lemma SampleFetchedAmount(wire: Option<int>)
    ensures var raw := [Entry("A", "1111111111", "Private job", "x.jpg", "2024-01-01T00:00:00Z", wire)];
      WithDerivedAmounts(raw) == [raw[0].(amount := Some(350))]
  {
  }

  /** Why `handleSubmit` stops before saving, one per alert, in the order they are checked. */
  datatype FormError = MissingName | InvalidMobile | MissingOccupation | MissingImage

  /** `selected` passes `!selected` when it is a non-empty key. */
  predicate IsTruthy(selected: Option<string>) {
    selected.Some? && selected.value != ""
  }

  /** Exactly ten ASCII digits. */
  predicate IsTenDigitNumber(mobile: string) {
    |mobile| == 10 && forall i :: 0 <= i < |mobile| ==> IsAsciiDigit(mobile[i])
  }

  /** The mobile check (src/Click.jsx:36): not blank, and the ten-digit pattern matches the untrimmed value. */
  predicate MobileAccepted(mobile: string) {
    Trim(mobile) != "" && MatchesDigits(mobile, 10)
  }

  /**
   * The mobile check accepts exactly the ten-digit strings; the `trim` guard
   * is subsumed by the pattern, and surrounding white space is rejected.
   */
  lemma MobileAcceptedIff(mobile: string)
    ensures MobileAccepted(mobile) <==> IsTenDigitNumber(mobile)
  {
    MatchesDigitsIff(mobile, 10);
    TrimEmptyIff(mobile);
    if IsTenDigitNumber(mobile) {
      assert !IsJsWhitespace(mobile[0]);
    }
  }

  /**
   * The checks of `handleSubmit`, in order, stopping at the first that fails:
   * a non-blank name, a ten-digit mobile, a selected occupation, a picked file.
   */
  function Validate(name: string, mobile: string, selected: Option<string>, file: Option<LocalFile>)
    : (r: Option<FormError>)
    ensures r == Some(MissingName) <==> AllWhitespace(name)
    ensures r == Some(InvalidMobile) <==> !AllWhitespace(name) && !IsTenDigitNumber(mobile)
    ensures r == Some(MissingOccupation) <==>
      !AllWhitespace(name) && IsTenDigitNumber(mobile) && !IsTruthy(selected)
    ensures r == Some(MissingImage) <==>
      !AllWhitespace(name) && IsTenDigitNumber(mobile) && IsTruthy(selected) && file.None?
    ensures r == None <==>
      !AllWhitespace(name) && IsTenDigitNumber(mobile) && IsTruthy(selected) && file.Some?
    ensures r.None? ==> selected.Some? && file.Some?
  {
    TrimEmptyIff(name);
    MobileAcceptedIff(mobile);
    if Trim(name) == "" then Some(MissingName)
    else if !MobileAccepted(mobile) then Some(InvalidMobile)
    else if !IsTruthy(selected) then Some(MissingOccupation)
    else if file.None? then Some(MissingImage)
    else None
  }

  /** A mobile that is not ten characters long is rejected. */
  lemma WrongLengthRejected(mobile: string)
    requires |mobile| != 10
    ensures !MobileAccepted(mobile)
  {
    MobileAcceptedIff(mobile);
  }

  /** A mobile with a character other than an ASCII digit anywhere in it is rejected. */
  lemma NonDigitRejected(mobile: string, i: nat)
    requires i < |mobile| && !IsAsciiDigit(mobile[i])
    ensures !MobileAccepted(mobile)
  {
    MobileAcceptedIff(mobile);
  }

  /** Sample mobiles that the check rejects for their length: five and eleven digits. */
  lemma RejectedMobileLengths()
    ensures !MobileAccepted("12345")
    ensures !MobileAccepted("12345678901")
  {
    WrongLengthRejected("12345");
    WrongLengthRejected("12345678901");
  }

  /** A sample mobile that the check rejects for its letters. */
  lemma RejectedMobileLetters()
    ensures !MobileAccepted("12345abcde")
  {
    NonDigitRejected("12345abcde", 5);
  }

  /** A sample mobile that the check rejects for its leading space: it is not trimmed first. */
  lemma RejectedMobileSpace()
    ensures !MobileAccepted(" 987654321")
  {
    NonDigitRejected(" 987654321", 0);
  }

  /** A sample mobile that the check accepts. */
  lemma AcceptedMobile()
    ensures MobileAccepted("9876543210")
  {
    var m := "9876543210";
    assert IsTenDigitNumber(m) by {
      forall i | 0 <= i < |m| ensures IsAsciiDigit(m[i]) {
      }
    }
    MobileAcceptedIff(m);
  }

  /** The sample form "Asha", "9876543210", "Student" with a picked file passes every check. */
  lemma SampleFormValid(picked: LocalFile)
    ensures Validate("Asha", "9876543210", Some("Student"), Some(picked)) == None
  {
    SampleNameNotBlank();
    SampleMobileAccepted();
  }

  /** The sample tier is a table key worth 200. */
  lemma SampleTier()
    ensures "Student" in Occupations && AmountFor("Student") == 200
  {
  }

  /** "Asha" is not blank. */
  lemma SampleNameNotBlank()
    ensures !AllWhitespace("Asha")
  {
    assert !IsJsWhitespace("Asha"[0]);
  }

  /** "9876543210" passes the mobile pattern. */
  lemma SampleMobileAccepted()
    ensures IsTenDigitNumber("9876543210")
  {
    AcceptedMobile();
    MobileAcceptedIff("9876543210");
  }
}
