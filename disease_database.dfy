/** The catalog search view (components/DiseaseDatabase.tsx): a
    case-insensitive substring search combined with a severity selector, and
    the two severity-to-style mappings used to render each entry. */
module DiseaseDatabase {
  import opened Types
  import opened ArrayOps
  import opened Catalog

  // ---------------------------------------------------------------------
  // Lower-casing and substring search

  /** ASCII lower-casing of one character. */
  function LowerChar(c: char): (r: char)
    ensures 'A' <= c <= 'Z' ==> r as int == c as int + 32
    ensures !('A' <= c <= 'Z') ==> r == c
  {
    if 'A' <= c <= 'Z' then (c as int + 32) as char else c
  }

  /** `String.prototype.toLowerCase`, restricted to ASCII letters. */
  function ToLower(s: string): (r: string)
    ensures |r| == |s|
    ensures forall i :: 0 <= i < |s| ==> r[i] == LowerChar(s[i])
    ensures forall i :: 0 <= i < |r| ==> !('A' <= r[i] <= 'Z')
  {
    Map(s, LowerChar)
  }

  /** Lower-casing is idempotent. */
  lemma LowerIdempotent(s: string)
    ensures ToLower(ToLower(s)) == ToLower(s)
  {
  }

  /** A lower-case letter occurs in `ToLower(s)` only if it or its upper-case
      form occurs in `s`. */
  lemma LowerAbsent(s: string, c: char)
    requires 'a' <= c <= 'z'
    requires c !in s && (c as int - 32) as char !in s
    ensures c !in ToLower(s)
  {
    forall i | 0 <= i < |s|
      ensures ToLower(s)[i] != c
    {
      assert s[i] in s;
    }
  }

  /** `needle` occurs in `hay` starting at offset `i`. */
  ghost predicate OccursAt(hay: string, needle: string, i: int)
  {
    0 <= i && i + |needle| <= |hay| && hay[i..i + |needle|] == needle
  }

  /** `String.prototype.includes`: `needle` occurs somewhere in `hay`. */
  function Includes(hay: string, needle: string): (r: bool)
    ensures needle == [] ==> r
    ensures r ==> |needle| <= |hay|
    decreases |hay|
  {
    if |needle| > |hay| then false
    else hay[..|needle|] == needle || (|hay| > 0 && Includes(hay[1..], needle))
  }

  /** `Includes` holds exactly when the needle occurs at some offset. */
  lemma {:induction false} IncludesIff(hay: string, needle: string)
    ensures Includes(hay, needle) <==> exists i :: OccursAt(hay, needle, i)
    decreases |hay|
  {
    if |needle| <= |hay| && hay[..|needle|] != needle && |hay| > 0 {
      IncludesIff(hay[1..], needle);
      if exists i :: OccursAt(hay[1..], needle, i) {
        var i :| OccursAt(hay[1..], needle, i);
        assert hay[i + 1..i + 1 + |needle|] == hay[1..][i..i + |needle|];
        assert OccursAt(hay, needle, i + 1);
      }
      if exists i :: OccursAt(hay, needle, i) {
        var i :| OccursAt(hay, needle, i);
        assert i != 0;
        assert hay[1..][i - 1..i - 1 + |needle|] == hay[i..i + |needle|];
        assert OccursAt(hay[1..], needle, i - 1);
      }
    } else if |needle| <= |hay| && hay[..|needle|] == needle {
      assert OccursAt(hay, needle, 0);
    }
  }

  /** A needle containing a character the haystack lacks is not included. */
  lemma MissingCharNotIncluded(hay: string, needle: string, c: char)
    requires c in needle && c !in hay
    ensures !Includes(hay, needle)
  {
    var k :| 0 <= k < |needle| && needle[k] == c;
    forall i ensures !OccursAt(hay, needle, i) {
      if 0 <= i && i + |needle| <= |hay| {
        assert hay[i + k] in hay;
        assert hay[i..i + |needle|][k] == hay[i + k];
      }
    }
    IncludesIff(hay, needle);
  }

  // ---------------------------------------------------------------------
  // The filter

  /** The name or the description contains the search term, both lower-cased. */
  function MatchesSearch(d: Disease, term: string): (r: bool)
    ensures term == [] ==> r
    ensures r ==> |term| <= |d.name| || |term| <= |d.description|
  {
    Includes(ToLower(d.name), ToLower(term)) || Includes(ToLower(d.description), ToLower(term))
  }

  /** The selector is the wildcard `all` or names the entry's severity exactly. */
  function MatchesSeverity(d: Disease, selected: string): (r: bool)
    ensures selected == "all" || selected == d.severity.Name() ==> r
    ensures selected != "all" && selected != "Low" && selected != "Medium" && selected != "High" ==> !r
  {
    selected == "all" || d.severity.Name() == selected
  }

  /** The predicate handed to `filter`. */
  function Keep(term: string, selected: string): (keep: Disease -> bool)
    ensures forall d :: keep(d) <==> MatchesSearch(d, term) && MatchesSeverity(d, selected)
  {
    d => MatchesSearch(d, term) && MatchesSeverity(d, selected)
  }

  /** The entries the view lists for a search term and a severity selector. */
  function FilteredDiseases(catalog: seq<Disease>, term: string, selected: string): (r: seq<Disease>)
    ensures |r| <= |catalog|
    ensures forall d :: d in r ==> d in catalog && MatchesSearch(d, term) && MatchesSeverity(d, selected)
  {
    Filter(catalog, Keep(term, selected))
  }

  /** An entry is listed exactly when it is in the catalog, matches the term
      and matches the selector. */
  lemma FilteredMembership(catalog: seq<Disease>, term: string, selected: string, d: Disease)
    ensures d in FilteredDiseases(catalog, term, selected)
        <==> d in catalog && MatchesSearch(d, term) && MatchesSeverity(d, selected)
  {
    FilterMembership(catalog, Keep(term, selected), d);
  }

  /** The listed entries appear in catalog order. */
  lemma FilteredInOrder(catalog: seq<Disease>, term: string, selected: string)
    ensures IsSubsequence(FilteredDiseases(catalog, term, selected), catalog)
  {
    FilterIsSubsequence(catalog, Keep(term, selected));
  }

  /** The wildcard `all` puts no constraint on severity: the result is the
      search alone. */
  lemma AllSeveritiesIsSearchOnly(catalog: seq<Disease>, term: string)
    ensures FilteredDiseases(catalog, term, "all") == Filter(catalog, d => MatchesSearch(d, term))
  {
    FilterAgree(catalog, Keep(term, "all"), d => MatchesSearch(d, term));
  }

  /** Any other selector keeps exactly the search matches whose severity name
      equals it. */
  lemma SeveritySelectorExact(catalog: seq<Disease>, term: string, selected: string)
    requires selected != "all"
    ensures FilteredDiseases(catalog, term, selected)
         == Filter(Filter(catalog, d => MatchesSearch(d, term)), (d: Disease) => d.severity.Name() == selected)
  {
    FilterFilter(catalog, d => MatchesSearch(d, term), (d: Disease) => d.severity.Name() == selected,
                 Keep(term, selected));
  }

  /** A selector that is neither `all` nor a severity name lists nothing. */
  lemma UnknownSeverityListsNothing(catalog: seq<Disease>, term: string, selected: string)
    requires selected != "all" && selected != "Low" && selected != "Medium" && selected != "High"
    ensures FilteredDiseases(catalog, term, selected) == []
  {
    FilterNonePass(catalog, Keep(term, selected));
  }

  /** The empty term with the wildcard lists the whole catalog, in order. */
  lemma EmptyQueryListsAll(catalog: seq<Disease>)
    ensures FilteredDiseases(catalog, "", "all") == catalog
  {
    FilterAllPass(catalog, Keep("", "all"));
  }

  /** Two terms that differ only in letter case list the same entries. */
  lemma CaseInsensitive(catalog: seq<Disease>, term1: string, term2: string, selected: string)
    requires ToLower(term1) == ToLower(term2)
    ensures FilteredDiseases(catalog, term1, selected) == FilteredDiseases(catalog, term2, selected)
  {
    FilterAgree(catalog, Keep(term1, selected),
                Keep(term2, selected));
  }

  // ---------------------------------------------------------------------
  // Two concrete searches over the catalog

  /** A name and description that lack both `x` and `X` do not match the
      term `pox`. */
  lemma NoPoxWithoutX(name: string, description: string)
    requires 'x' !in name && 'X' !in name
    requires 'x' !in description && 'X' !in description
    ensures !Includes(ToLower(name), ToLower("pox"))
    ensures !Includes(ToLower(description), ToLower("pox"))
  {
    assert ToLower("pox") == "pox";
    LowerAbsent(name, 'x');
    LowerAbsent(description, 'x');
    MissingCharNotIncluded(ToLower(name), "pox", 'x');
    MissingCharNotIncluded(ToLower(description), "pox", 'x');
  }

  lemma NewcastleNameLacksX()
    ensures 'x' !in NewcastleName && 'X' !in NewcastleName
  {
  }

  lemma NewcastleDescriptionLacksX()
    ensures 'x' !in NewcastleDescription
  {
  }

  lemma NewcastleDescriptionLacksUpperX()
    ensures 'X' !in NewcastleDescription
  {
  }

  lemma NewcastleMissesPox()
    ensures !MatchesSearch(Newcastle, "pox")
  {
    NewcastleNameLacksX();
    NewcastleDescriptionLacksX();
    NewcastleDescriptionLacksUpperX();
    NoPoxWithoutX(NewcastleName, NewcastleDescription);
  }

  lemma AvianFluNameLacksX()
    ensures 'x' !in AvianFluName && 'X' !in AvianFluName
  {
  }

  lemma AvianFluDescriptionLacksX()
    ensures 'x' !in AvianFluDescription
  {
  }

  lemma AvianFluDescriptionLacksUpperX()
    ensures 'X' !in AvianFluDescription
  {
  }

  lemma AvianFluMissesPox()
    ensures !MatchesSearch(AvianFlu, "pox")
  {
    AvianFluNameLacksX();
    AvianFluDescriptionLacksX();
    AvianFluDescriptionLacksUpperX();
    NoPoxWithoutX(AvianFluName, AvianFluDescription);
  }

  lemma CoccidiosisNameLacksX()
    ensures 'x' !in CoccidiosisName && 'X' !in CoccidiosisName
  {
  }

  lemma CoccidiosisDescriptionLacksX()
    ensures 'x' !in CoccidiosisDescription
  {
  }

  lemma CoccidiosisDescriptionLacksUpperX()
    ensures 'X' !in CoccidiosisDescription
  {
  }

  lemma CoccidiosisMissesPox()
    ensures !MatchesSearch(Coccidiosis, "pox")
  {
    CoccidiosisNameLacksX();
    CoccidiosisDescriptionLacksX();
    CoccidiosisDescriptionLacksUpperX();
    NoPoxWithoutX(CoccidiosisName, CoccidiosisDescription);
  }

  lemma HealthyNameLacksX()
    ensures 'x' !in HealthyName && 'X' !in HealthyName
  {
  }

  lemma HealthyDescriptionLacksX()
    ensures 'x' !in HealthyDescription
  {
  }

  lemma HealthyDescriptionLacksUpperX()
    ensures 'X' !in HealthyDescription
  {
  }

  lemma HealthyMissesPox()
    ensures !MatchesSearch(Healthy, "pox")
  {
    HealthyNameLacksX();
    HealthyDescriptionLacksX();
    HealthyDescriptionLacksUpperX();
    NoPoxWithoutX(HealthyName, HealthyDescription);
  }

  /** Searching `pox` over all severities lists exactly Fowl Pox. */
  lemma PoxSearch()
    ensures FilteredDiseases(Diseases, "pox", "all") == [FowlPox]
  {
    var name := ToLower(FowlPoxName);
    assert name[5..8] == "pox";
    assert ToLower("pox") == "pox";
    IncludesIff(name, "pox");
    assert OccursAt(name, "pox", 5);
    assert MatchesSearch(FowlPox, "pox");
    NewcastleMissesPox();
    AvianFluMissesPox();
    CoccidiosisMissesPox();
    HealthyMissesPox();
    CatalogFilter(Keep("pox", "all"));
  }

  /** Filtering the catalog, entry by entry. */
  lemma CatalogFilter(p: Disease -> bool)
    ensures Filter(Diseases, p)
         == Kept(Newcastle, p) + (Kept(AvianFlu, p) + (Kept(FowlPox, p)
          + (Kept(Coccidiosis, p) + Kept(Healthy, p))))
  {
    FilterFive(Diseases, p);
  }

  /** The empty term with the `High` selector lists Newcastle Disease and
      Avian Influenza, in that order. */
  lemma HighSeveritySearch()
    ensures FilteredDiseases(Diseases, "", "High") == [Newcastle, AvianFlu]
  {
    assert ToLower("") == "";
    CatalogFilter(Keep("", "High"));
  }

  // ---------------------------------------------------------------------
  // Severity styling

  /** The colour family a severity is drawn in. */
  datatype Tone = Red | Amber | Green | Gray {
    /** The badge classes of this tone: background, text and border. */
    function BadgeClasses(): string
    {
      match this
      case Red => "bg-red-100 text-red-800 border-red-200"
      case Amber => "bg-amber-100 text-amber-800 border-amber-200"
      case Green => "bg-green-100 text-green-800 border-green-200"
      case Gray => "bg-gray-100 text-gray-800 border-gray-200"
    }

    /** The icon classes of this tone. */
    function IconClasses(): string
    {
      match this
      case Red => "h-5 w-5 text-red-500"
      case Amber => "h-5 w-5 text-amber-500"
      case Green => "h-5 w-5 text-green-500"
      case Gray => "h-5 w-5 text-gray-500"
    }
  }

  /** The reference mapping: High is red, Medium amber, Low green, and any
      other string falls back to gray. */
  function SeverityTone(severity: string): (t: Tone)
    ensures t == Red <==> severity == "High"
    ensures t == Amber <==> severity == "Medium"
    ensures t == Green <==> severity == "Low"
    ensures t == Gray <==> severity != "High" && severity != "Medium" && severity != "Low"
  {
    if severity == "High" then Red
    else if severity == "Medium" then Amber
    else if severity == "Low" then Green
    else Gray
  }

  /** The glyphs the icon mapping chooses from. */
  datatype Glyph = AlertTriangle | Info | Shield

  /** A rendered icon: its glyph and its CSS classes. */
  datatype Icon = Icon(glyph: Glyph, className: string)

  /** `getSeverityIcon`: a warning triangle for High, a shield for Low and an
      information mark otherwise, tinted in the severity's tone. */
  function SeverityIcon(severity: string): (r: Icon)
    ensures r.className == SeverityTone(severity).IconClasses()
    ensures r.glyph == AlertTriangle <==> severity == "High"
    ensures r.glyph == Shield <==> severity == "Low"
  {
    match severity
    case "High" => Icon(AlertTriangle, "h-5 w-5 text-red-500")
    case "Medium" => Icon(Info, "h-5 w-5 text-amber-500")
    case "Low" => Icon(Shield, "h-5 w-5 text-green-500")
    case _ => Icon(Info, "h-5 w-5 text-gray-500")
  }

  /** `getSeverityColor`: the badge classes of the severity's tone. */
  function SeverityColor(severity: string): (r: string)
    ensures r == SeverityTone(severity).BadgeClasses()
  {
    match severity
    case "High" => "bg-red-100 text-red-800 border-red-200"
    case "Medium" => "bg-amber-100 text-amber-800 border-amber-200"
    case "Low" => "bg-green-100 text-green-800 border-green-200"
    case _ => "bg-gray-100 text-gray-800 border-gray-200"
  }

  /** Every catalog entry is drawn in a non-default tone, and distinct
      severities get distinct badges. */
  lemma CatalogSeveritiesStyled()
    ensures forall d :: d in Diseases ==> SeverityTone(d.severity.Name()) != Gray
    ensures forall a: Severity, b: Severity :: a != b ==> SeverityColor(a.Name()) != SeverityColor(b.Name())
  {
  }
}
