/** Field extraction for one `.job-primary` listing element
    (crawler/crawl.py, the body of the `try` block). */
module Extract {
  import opened Wrappers
  import opened Text

  /** The salary unit removed from the salary text. */
  const SalaryUnit: char := 'K'
  /** Separates the monthly range from the annual-bonus part, as in "15-25K·13薪". */
  const BonusSeparator: char := '·'
  /** Separates the two bounds of the monthly range. */
  const RangeSeparator: char := '-'
  /** The markup between the parts of a composite field. */
  const Vline: string := "<em class=\"vline\"></em>"
  /** Put before every tag text in `keywords`. */
  const TagMarker: char := '#'

  const JobNameSelector: string := ".job-name a"
  const JobAreaSelector: string := ".job-area"
  const SalarySelector: string := ".job-limit .red"
  const LimitSelector: string := ".job-limit.clearfix > p"
  const CompanyNameSelector: string := ".company-text .name a"
  const CompanyDetailSelector: string := ".company-text > p"
  const CompanyCategorySelector: string := ".company-text .false-link"
  const WelfareSelector: string := ".info-desc"

  /** One entry of the category configuration: `type`, `name` and `url`. */
  datatype Category = Category(kind: string, name: string, url: string)

  /** What the browser reports about one listing element: for every
      single-element lookup, the text (or inner HTML) of the element, or
      None when the lookup raises; and the texts of all `.tag-item`
      elements, a lookup that never raises. */
  datatype Element = Element(
    jobName: Option<string>,
    jobArea: Option<string>,
    salary: Option<string>,
    limitHtml: Option<string>,
    companyName: Option<string>,
    companyDetailHtml: Option<string>,
    companyCategory: Option<string>,
    welfare: Option<string>,
    tags: seq<string>)

  /** One row of the result table. */
  datatype Listing = Listing(
    jobCategory: string,
    jobSubCategory: string,
    jobName: string,
    jobArea: string,
    minSalary: int,
    maxSalary: int,
    annualBonus: Option<string>,
    experienceRequirement: string,
    educationRequirement: string,
    companyName: string,
    companyCategory: string,
    companyScale: string,
    companyWelfare: string,
    keywords: string)

  /** The exceptions that abandon one element: a missing element, a token
      `int()` rejects, a missing piece after a split. */
  datatype Failure = NoSuchElement(selector: string) | ValueError | IndexError

  datatype Salary = Salary(min: int, max: int, bonus: Option<string>)

  /** The composite-field marker cannot overlap itself. */
  lemma VlineBorderless()
    ensures Borderless(Vline)
  {
    forall d | 0 < d < |Vline| ensures Vline[d..] != Vline[..|Vline| - d] {
      if d == 5 {
        assert Vline[d..][0] != Vline[..|Vline| - d][0];
      } else {
        assert Vline[d..][|Vline| - d - 1] != Vline[..|Vline| - d][|Vline| - d - 1];
      }
    }
  }

  /** A decimal string holds none of the separators. */
  lemma DecimalHasNoMarkers(s: string)
    requires IsDecimal(s)
    ensures SalaryUnit !in s && BonusSeparator !in s && RangeSeparator !in s
  {
    assert forall i :: 0 <= i < |s| ==> IsDigit(s[i]);
  }

  /** A string has every character of its prefixes. */
  lemma PrefixHas(p: string, s: string, c: char)
    requires p <= s && c in p
    ensures c in s
  {
    var i :| 0 <= i < |p| && p[i] == c;
    assert s[i] == c;
  }

  /** A prefix of a string has no character the string lacks. */
  lemma PrefixAvoids(p: string, s: string, c: char)
    requires p <= s && c !in s
    ensures c !in p
  {
    assert forall i :: 0 <= i < |p| ==> p[i] == s[i];
  }

  /** Salary, lines 47-51: every 'K' removed; with a '·', the range is the
      text before the first '·' and the bonus the text after it, up to the
      next '·' if any; without one, the whole text is the range and there
      is no bonus. */
  function SplitBonus(text: string): (r: (string, Option<string>))
    ensures SalaryUnit !in r.0
    ensures r.1.None? <==> BonusSeparator !in text
    ensures r.1.None? ==> r.0 == RemoveChar(text, SalaryUnit)
    ensures r.1.Some? ==> SalaryUnit !in r.1.value
    ensures r.1.Some? ==> LeadingFields(RemoveChar(text, SalaryUnit), [BonusSeparator], r.0, r.1.value)
  {
    var t := RemoveChar(text, SalaryUnit);
    FindChar(t, BonusSeparator);
    RemoveCharCounts(text, SalaryUnit);
    assert multiset(t)[BonusSeparator] == multiset(text)[BonusSeparator];
    if Find(t, [BonusSeparator]) != -1 then
      var parts := Split(t, [BonusSeparator]);
      BonusFields(t);
      (parts[0], Some(parts[1]))
    else
      (t, None)
  }

  /** The two leading '·'-pieces of a text without 'K' have no 'K'. */
  lemma BonusFields(t: string)
    requires SalaryUnit !in t && Find(t, [BonusSeparator]) != -1
    ensures var parts := Split(t, [BonusSeparator]);
      && |parts| >= 2
      && LeadingFields(t, [BonusSeparator], parts[0], parts[1])
      && SalaryUnit !in parts[0] && SalaryUnit !in parts[1]
  {
    var parts := Split(t, [BonusSeparator]);
    SplitLeading(t, [BonusSeparator]);
    var a, b := parts[0], parts[1];
    var head := a + [BonusSeparator] + b;
    assert head <= t;
    PrefixAvoids(head, t, SalaryUnit);
    assert forall i :: 0 <= i < |a| ==> a[i] == head[i];
    assert forall i :: 0 <= i < |b| ==> b[i] == head[|a| + 1 + i];
  }

  /** Lines 52-53: `int` of tokens 0 and 1 of the range split on '-'. */
  function ParseRange(range: string): (r: Result<(int, int), Failure>)
    ensures RangeSeparator !in range ==> r.Err?
    ensures r.Err? ==> r.error == ValueError || r.error == IndexError
    ensures r.Ok? ==> r.value.0 >= 0 && r.value.1 >= 0
  {
    var tokens := Split(range, [RangeSeparator]);
    FindChar(range, RangeSeparator);
    match ParseInt(tokens[0])
    case None => Err(ValueError)
    case Some(lo) =>
      if |tokens| < 2 then Err(IndexError)
      else
        match ParseInt(tokens[1])
        case None => Err(ValueError)
        case Some(hi) => Ok((lo, hi))
  }

  /** The bounds are the values of the first two '-'-separated tokens;
      extra tokens are ignored. */
  lemma ParseRangeTokens(range: string, lo: string, hi: string)
    requires LeadingFields(range, [RangeSeparator], lo, hi)
    ensures ParseRange(range).Ok? <==> IsDecimal(lo) && IsDecimal(hi)
    ensures ParseRange(range).Ok? ==>
      ParseInt(lo) == Some(ParseRange(range).value.0) && ParseInt(hi) == Some(ParseRange(range).value.1)
  {
    SingleCharBorderless(RangeSeparator);
    LeadingSplit(range, [RangeSeparator], lo, hi);
  }

  /** Lines 47-53: the salary range and the optional bonus. */
  function ParseSalary(text: string): (r: Result<Salary, Failure>)
    ensures r.Ok? <==> ParseRange(SplitBonus(text).0).Ok?
    ensures r.Ok? ==> (r.value.min, r.value.max) == ParseRange(SplitBonus(text).0).value
    ensures r.Ok? ==> r.value.bonus == SplitBonus(text).1
    ensures r.Ok? ==> r.value.min >= 0 && r.value.max >= 0
    ensures RangeSeparator !in text ==> r.Err?
  {
    var (range, bonus) := SplitBonus(text);
    var bounds :- ParseRange(range);
    SalaryRangeHasDash(text);
    Ok(Salary(bounds.0, bounds.1, bonus))
  }

  /** A range that holds '-' comes from a text that holds '-'. */
  lemma SalaryRangeHasDash(text: string)
    requires RangeSeparator in SplitBonus(text).0
    ensures RangeSeparator in text
  {
    var t := RemoveChar(text, SalaryUnit);
    var (range, bonus) := SplitBonus(text);
    if bonus.Some? {
      LeadingPrefix(t, [BonusSeparator], range, bonus.value);
      PrefixHas(range, t, RangeSeparator);
    }
    RemoveCharCounts(text, SalaryUnit);
    assert multiset(t)[RangeSeparator] == multiset(text)[RangeSeparator];
  }

  /** "a-bK" gives the bounds a and b and no bonus. */
  lemma SalaryWithoutBonus(lo: nat, hi: nat)
    ensures ParseSalary(ShowNat(lo) + "-" + ShowNat(hi) + "K") == Ok(Salary(lo, hi, None))
  {
    var a, b := ShowNat(lo), ShowNat(hi);
    DecimalHasNoMarkers(a);
    DecimalHasNoMarkers(b);
    RemoveCharConcat(a + "-" + b, "K", SalaryUnit);
    RemoveCharConcat(a + "-", b, SalaryUnit);
    RemoveCharConcat(a, "-", SalaryUnit);
    assert RemoveChar("K", SalaryUnit) == "";
    var range := a + "-" + b;
    assert range + "" == range;
    assert SplitBonus(a + "-" + b + "K").0 == range;
    FindChar(a, RangeSeparator);
    FindChar(b, RangeSeparator);
    ParseRangeTokens(range, a, b);
    ParseShow(lo);
    ParseShow(hi);
  }

  /** "a-bK·c" gives the bounds a and b and the bonus c. */
  lemma SalaryWithBonus(lo: nat, hi: nat, bonus: string)
    requires BonusSeparator !in bonus && SalaryUnit !in bonus
    ensures ParseSalary(ShowNat(lo) + "-" + ShowNat(hi) + "K·" + bonus) == Ok(Salary(lo, hi, Some(bonus)))
  {
    var a, b := ShowNat(lo), ShowNat(hi);
    var text := a + "-" + b + "K·" + bonus;
    DecimalHasNoMarkers(a);
    DecimalHasNoMarkers(b);
    var range := a + "-" + b;
    assert text == range + "K·" + bonus;
    RemoveCharConcat(range + "K·", bonus, SalaryUnit);
    RemoveCharConcat(range, "K·", SalaryUnit);
    RemoveCharConcat(a + "-", b, SalaryUnit);
    RemoveCharConcat(a, "-", SalaryUnit);
    assert RemoveChar("K·", SalaryUnit) == "·";
    var t := RemoveChar(text, SalaryUnit);
    assert t == range + [BonusSeparator] + bonus;
    FindChar(range, BonusSeparator);
    FindChar(bonus, BonusSeparator);
    SingleCharBorderless(BonusSeparator);
    LeadingSplit(t, [BonusSeparator], range, bonus);
    FindChar(t, BonusSeparator);
    assert SplitBonus(text) == (range, Some(bonus));
    FindChar(a, RangeSeparator);
    FindChar(b, RangeSeparator);
    ParseRangeTokens(range, a, b);
    ParseShow(lo);
    ParseShow(hi);
  }

  /** Lines 55-57: experience and education are pieces 0 and 1 of the
      requirement markup split on the marker; a single piece fails. */
  function ParseLimit(html: string): (r: Result<(string, string), Failure>)
    ensures r.Err? <==> Find(html, Vline) == -1
    ensures r.Err? ==> r.error == IndexError
    ensures r.Ok? ==> LeadingFields(html, Vline, r.value.0, r.value.1)
  {
    var parts := Split(html, Vline);
    if |parts| < 2 then Err(IndexError)
    else
      SplitLeading(html, Vline);
      Ok((parts[0], parts[1]))
  }

  /** Conversely, whatever leads the markup is what is extracted:
      "X<marker>Y" gives experience X and education Y. */
  lemma LimitOfFields(html: string, experience: string, education: string)
    requires LeadingFields(html, Vline, experience, education)
    ensures ParseLimit(html) == Ok((experience, education))
  {
    assert Split(html, Vline)[0] == experience && Split(html, Vline)[1] == education by {
      VlineBorderless();
      LeadingSplit(html, Vline, experience, education);
    }
  }

  /** Lines 60 and 62: the company scale is the last piece of the company
      detail markup; it never fails. */
  function CompanyScale(html: string): (r: string)
    ensures Find(r, Vline) == -1
    ensures Find(html, Vline) == -1 ==> r == html
    ensures Find(html, Vline) != -1 ==>
      |r| + |Vline| <= |html| && html[|html| - |r| - |Vline|..] == Vline + r
  {
    var parts := Split(html, Vline);
    var last := parts[|parts| - 1];
    if |parts| >= 2 then
      JoinLast(parts, Vline);
      var init := Join(parts[..|parts| - 1], Vline);
      assert html == init + (Vline + last);
      assert html[|init|..] == Vline + last;
      last
    else
      last
  }

  /** Whatever the number of pieces, the scale is the last one. */
  lemma ScaleOfSegments(segments: seq<string>)
    requires |segments| >= 1
    requires forall k :: 0 <= k < |segments| ==> Find(segments[k], Vline) == -1
    ensures CompanyScale(Join(segments, Vline)) == segments[|segments| - 1]
  {
    SplitJoinVline(segments);
    ScaleOfPieces(Join(segments, Vline), segments);
  }

  /** The split/join round trip for the marker. */
  lemma SplitJoinVline(segments: seq<string>)
    requires |segments| >= 1
    requires forall k :: 0 <= k < |segments| ==> Find(segments[k], Vline) == -1
    ensures Split(Join(segments, Vline), Vline) == segments
  {
    VlineBorderless();
    SplitJoin(segments, Vline);
  }

  lemma ScaleOfPieces(html: string, pieces: seq<string>)
    requires Split(html, Vline) == pieces
    ensures CompanyScale(html) == pieces[|pieces| - 1]
  {
  }

  /** Lines 65-68: "#" followed by the tag text, for every tag in order. */
  function Hashtags(tags: seq<string>): (r: string)
    ensures |r| >= |tags|
    ensures tags != [] ==> r[0] == TagMarker
  {
    if tags == [] then "" else [TagMarker] + tags[0] + Hashtags(tags[1..])
  }

  lemma {:induction false} HashtagsSnoc(tags: seq<string>, t: string)
    ensures Hashtags(tags + [t]) == Hashtags(tags) + [TagMarker] + t
  {
    if tags == [] {
      assert [] + [t] == [t];
      assert Hashtags([t]) == [TagMarker] + t + Hashtags([]);
    } else {
      assert (tags + [t])[1..] == tags[1..] + [t];
      HashtagsSnoc(tags[1..], t);
    }
  }

  lemma {:induction false} HashtagsJoin(tags: seq<string>)
    ensures Hashtags(tags) == Join([""] + tags, [TagMarker])
  {
    if tags != [] {
      HashtagsJoin(tags[1..]);
      assert ([""] + tags)[1..] == tags;
      assert ([""] + tags[1..])[1..] == tags[1..];
      if |tags| > 1 {
        assert Join(tags, [TagMarker]) == tags[0] + [TagMarker] + Join(tags[1..], [TagMarker]);
      }
    }
  }

  /** Splitting the keywords on '#' gives back an empty head and the tag
      texts, when no tag text holds '#'. */
  lemma KeywordsSplit(tags: seq<string>)
    requires forall k :: 0 <= k < |tags| ==> TagMarker !in tags[k]
    ensures Split(Hashtags(tags), [TagMarker]) == [""] + tags
  {
    HashtagsJoin(tags);
    var parts := [""] + tags;
    forall k | 0 <= k < |parts| ensures Find(parts[k], [TagMarker]) == -1 {
      FindChar(parts[k], TagMarker);
    }
    SingleCharBorderless(TagMarker);
    SplitJoin(parts, [TagMarker]);
  }

  lemma KeywordsExamples()
    ensures Hashtags([]) == ""
    ensures Hashtags(["A", "B"]) == "#A#B"
  {
    assert ["A", "B"][1..] == ["B"];
    assert ["B"][1..] == [];
  }

  /** Lines 66-68: the keyword accumulator loop. */
  method Keywords(tags: seq<string>) returns (keywords: string)
    ensures keywords == Hashtags(tags)
  {
    keywords := "";
    for i := 0 to |tags|
      invariant keywords == Hashtags(tags[..i])
    {
      HashtagsSnoc(tags[..i], tags[i]);
      assert tags[..i + 1] == tags[..i] + [tags[i]];
      keywords := keywords + [TagMarker] + tags[i];
    }
    assert tags[..|tags|] == tags;
  }

  /** Lines 44-86: every lookup and parse, in the order of the source;
      the first failure abandons the element. */
  function ExtractListing(cat: Category, e: Element): (r: Result<Listing, Failure>)
    ensures r.Ok? ==> r.value.jobCategory == cat.kind && r.value.jobSubCategory == cat.name
    ensures r.Ok? ==> Some(r.value.jobName) == e.jobName && Some(r.value.jobArea) == e.jobArea
    ensures e.jobName.None? ==> r == Err(NoSuchElement(JobNameSelector))
  {
    if e.jobName.None? then Err(NoSuchElement(JobNameSelector))
    else if e.jobArea.None? then Err(NoSuchElement(JobAreaSelector))
    else if e.salary.None? then Err(NoSuchElement(SalarySelector))
    else if ParseSalary(e.salary.value).Err? then Err(ParseSalary(e.salary.value).error)
    else if e.limitHtml.None? then Err(NoSuchElement(LimitSelector))
    else if ParseLimit(e.limitHtml.value).Err? then Err(ParseLimit(e.limitHtml.value).error)
    else if e.companyName.None? then Err(NoSuchElement(CompanyNameSelector))
    else if e.companyDetailHtml.None? then Err(NoSuchElement(CompanyDetailSelector))
    else if e.companyCategory.None? then Err(NoSuchElement(CompanyCategorySelector))
    else if e.welfare.None? then Err(NoSuchElement(WelfareSelector))
    else
      var salary := ParseSalary(e.salary.value).value;
      var limit := ParseLimit(e.limitHtml.value).value;
      Ok(Listing(cat.kind, cat.name, e.jobName.value, e.jobArea.value,
                 salary.min, salary.max, salary.bonus, limit.0, limit.1,
                 e.companyName.value, e.companyCategory.value,
                 CompanyScale(e.companyDetailHtml.value), e.welfare.value, Hashtags(e.tags)))
  }

  /** Every single-element lookup found its element. */
  predicate AllFound(e: Element) {
    && e.jobName.Some? && e.jobArea.Some? && e.salary.Some? && e.limitHtml.Some?
    && e.companyName.Some? && e.companyDetailHtml.Some?
    && e.companyCategory.Some? && e.welfare.Some?
  }

  /** An element yields a record exactly when every lookup finds its
      element, the salary parses and the requirement markup has two pieces. */
  lemma ExtractSucceeds(cat: Category, e: Element)
    ensures ExtractListing(cat, e).Ok? <==>
      AllFound(e) && ParseSalary(e.salary.value).Ok? && Find(e.limitHtml.value, Vline) != -1
  {
    if AllFound(e) && ParseSalary(e.salary.value).Ok? {
      LimitDecides(cat, e);
    } else {
      EarlyFailure(cat, e);
    }
  }

  /** Once the salary has parsed, the requirement markup decides. */
  lemma LimitDecides(cat: Category, e: Element)
    requires AllFound(e) && ParseSalary(e.salary.value).Ok?
    ensures ExtractListing(cat, e).Ok? <==> Find(e.limitHtml.value, Vline) != -1
  {
    var limit := ParseLimit(e.limitHtml.value);
    assert limit.Ok? <==> Find(e.limitHtml.value, Vline) != -1;
    assert ExtractListing(cat, e).Ok? <==> limit.Ok?;
  }

  /** A missing element or an unparsable salary abandons the element. */
  lemma EarlyFailure(cat: Category, e: Element)
    requires !AllFound(e) || ParseSalary(e.salary.value).Err?
    ensures ExtractListing(cat, e).Err?
  {
    var r := ExtractListing(cat, e);
    if e.jobName.None? {
      assert r == Err(NoSuchElement(JobNameSelector));
    } else if e.jobArea.None? {
      assert r == Err(NoSuchElement(JobAreaSelector));
    } else if e.salary.None? {
      assert r == Err(NoSuchElement(SalarySelector));
    } else if ParseSalary(e.salary.value).Err? {
      assert r == Err(ParseSalary(e.salary.value).error);
    } else if e.limitHtml.None? {
      assert r == Err(NoSuchElement(LimitSelector));
    } else if ParseLimit(e.limitHtml.value).Err? {
      assert r == Err(ParseLimit(e.limitHtml.value).error);
    } else if e.companyName.None? {
      assert r == Err(NoSuchElement(CompanyNameSelector));
    } else if e.companyDetailHtml.None? {
      assert r == Err(NoSuchElement(CompanyDetailSelector));
    } else if e.companyCategory.None? {
      assert r == Err(NoSuchElement(CompanyCategorySelector));
    } else {
      assert r == Err(NoSuchElement(WelfareSelector));
    }
  }

  /** The fields of an extracted record, in terms of the element. */
  lemma ExtractedFields(cat: Category, e: Element)
    requires ExtractListing(cat, e).Ok?
    ensures var l := ExtractListing(cat, e).value;
      && l.jobCategory == cat.kind && l.jobSubCategory == cat.name
      && Some(l.jobName) == e.jobName && Some(l.jobArea) == e.jobArea
      && Some(l.companyName) == e.companyName
      && Some(l.companyCategory) == e.companyCategory
      && Some(l.companyWelfare) == e.welfare
      && ParseSalary(e.salary.value) == Ok(Salary(l.minSalary, l.maxSalary, l.annualBonus))
      && l.annualBonus == SplitBonus(e.salary.value).1
      && LeadingFields(e.limitHtml.value, Vline, l.experienceRequirement, l.educationRequirement)
      && l.companyScale == CompanyScale(e.companyDetailHtml.value)
      && l.keywords == Hashtags(e.tags)
  {
    ExtractSucceeds(cat, e);
    assert AllFound(e) && ParseSalary(e.salary.value).Ok? && ParseLimit(e.limitHtml.value).Ok?;
  }

  /** An element without its job name or job area yields no record. */
  lemma MissingNameOrArea(cat: Category, e: Element)
    requires e.jobName.None? || e.jobArea.None?
    ensures ExtractListing(cat, e).Err?
    ensures e.jobName.None? ==> ExtractListing(cat, e).error == NoSuchElement(JobNameSelector)
  {
  }
}
