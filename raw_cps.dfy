/**
 * The raw CPS ASEC dataset of one survey year: the archive and member names
 * built from the year code, and the two tables derived from the person table,
 * the tax-unit table (per-unit sums keyed by `TAX_ID`) and the SPM-unit table
 * (per-unit first-member values keyed by `SPM_ID`).
 */
module RawCps {
  import opened Frames
  import opened Grouping
  import opened GroupLaws
  import opened Tables
  import opened Decimal

  // ---------------------------------------------------------------------------
  // Year code and file names
  // ---------------------------------------------------------------------------

  /** Python's `s[-2:]`: the suffix of `s` of length two, or all of `s` when
      it is shorter. */
  function LastTwo(s: string): (t: string)
    ensures |t| == (if |s| < 2 then |s| else 2)
    ensures s == s[..|s| - |t|] + t
  {
    if |s| < 2 then s else s[|s| - 2..]
  }

  function Abs(n: int): (a: nat) {
    if n < 0 then -n else n
  }

  /** `str(year)[-2:]`: for a year of two or more digits, its tens and units
      digits; for a one-digit year, its whole decimal string. */
  function YearCode(year: int): (yy: string)
    ensures Abs(year) >= 10 ==> yy == TwoDigits(Abs(year) % 100)
    ensures 0 <= year < 10 ==> yy == [DigitChar(year)]
    ensures -10 < year < 0 ==> yy == ['-', DigitChar(-year)]
  {
    if Abs(year) >= 10 then
      NatStringLastTwo(Abs(year));
      assert IntString(year)[|IntString(year)| - 2..] == NatString(Abs(year))[|NatString(Abs(year))| - 2..];
      LastTwo(IntString(year))
    else
      LastTwo(IntString(year))
  }

  /** In a name made of `p`, the year code and `q`, the two characters after
      `p` read back as the year modulo 100, for years of two or more digits. */
  lemma CodeBetween(p: string, year: int, q: string)
    requires Abs(year) >= 10
    ensures |p + YearCode(year) + q| == |p| + 2 + |q|
    ensures (p + YearCode(year) + q)[|p|..|p| + 2] == YearCode(year)
    ensures AllDigits(YearCode(year)) && DigitsValue(YearCode(year)) == Abs(year) % 100
  {
    TwoDigitsRoundTrip(Abs(year) % 100);
  }

  const UrlPrefix: string := "https://www2.census.gov/programs-surveys/cps/datasets/"

  /** `name` is the text `p`, then `code`, then the text `q`, as an f-string
      `f"{p}{code}{q}"` builds it. */
  predicate Framed(name: string, p: string, code: string, q: string) {
    name == p + code + q
  }

  /** A framed name is the one of length `|p| + |code| + |q|` that starts with
      `p`, ends with `q` and holds `code` in between. */
  lemma FramedParts(name: string, p: string, code: string, q: string)
    ensures Framed(name, p, code, q) <==>
              |name| == |p| + |code| + |q| &&
              name[..|p|] == p && name[|p|..|name| - |q|] == code && name[|name| - |q|..] == q
  {
    if |name| == |p| + |code| + |q| && name[..|p|] == p && name[|p|..|name| - |q|] == code && name[|name| - |q|..] == q {
      assert name == name[..|p|] + name[|p|..|name| - |q|] + name[|name| - |q|..];
    }
  }

  /** The archive of one year, `asecpub{YY}csv.zip`: characters 7 and 8 are
      the year code. */
  function ArchiveName(year: int): (name: string)
    ensures Framed(name, "asecpub", YearCode(year), "csv.zip")
    ensures Abs(year) >= 10 ==> |name| == 16 && AllDigits(name[7..9]) && DigitsValue(name[7..9]) == Abs(year) % 100
  {
    if Abs(year) >= 10 then CodeBetween("asecpub", year, "csv.zip"); "asecpub" + YearCode(year) + "csv.zip"
    else "asecpub" + YearCode(year) + "csv.zip"
  }

  /** Where the four parts of `a + y + m + n` are. */
  lemma FourParts(a: string, y: string, m: string, n: string)
    ensures |a + y + m + n| == |a| + |y| + |m| + |n|
    ensures (a + y + m + n)[..|a|] == a
    ensures (a + y + m + n)[|a|..|a| + |y|] == y
    ensures (a + y + m + n)[|a| + |y|..|a + y + m + n| - |n|] == m
    ensures (a + y + m + n)[|a + y + m + n| - |n|..] == n
    ensures m != [] ==> (a + y + m + n)[|a| + |y|] == m[0]
  {
    var u := a + y + m + n;
    assert u == a + (y + (m + n));
  }

  /** The download address of one year's archive: the prefix, the full year
      as `str` writes it, `/march/` and the archive name. */
  function ArchiveUrl(year: int): (url: string)
    ensures |url| == |UrlPrefix| + |IntString(year)| + 7 + |ArchiveName(year)|
    ensures url[..|UrlPrefix|] == UrlPrefix
    ensures url[|UrlPrefix|..|UrlPrefix| + |IntString(year)|] == IntString(year)
    ensures url[|UrlPrefix| + |IntString(year)|..|url| - |ArchiveName(year)|] == "/march/"
    ensures url[|url| - |ArchiveName(year)|..] == ArchiveName(year)
    ensures year >= 0 ==>
              |UrlPrefix| + |IntString(year)| < |url| &&
              AllDigits(url[|UrlPrefix|..|UrlPrefix| + |IntString(year)|]) &&
              DigitsValue(url[|UrlPrefix|..|UrlPrefix| + |IntString(year)|]) == year &&
              url[|UrlPrefix| + |IntString(year)|] == '/'
  {
    FourParts(UrlPrefix, IntString(year), "/march/", ArchiveName(year));
    UrlPrefix + IntString(year) + "/march/" + ArchiveName(year)
  }

  /** The person member of one year's archive, `pppub{YY}.csv`. */
  function PersonMember(year: int): (name: string)
    ensures Framed(name, "pppub", YearCode(year), ".csv")
    ensures Abs(year) >= 10 ==> |name| == 11 && AllDigits(name[5..7]) && DigitsValue(name[5..7]) == Abs(year) % 100
  {
    if Abs(year) >= 10 then CodeBetween("pppub", year, ".csv"); "pppub" + YearCode(year) + ".csv"
    else "pppub" + YearCode(year) + ".csv"
  }

  /** The family member of one year's archive, `ffpub{YY}.csv`. */
  function FamilyMember(year: int): (name: string)
    ensures Framed(name, "ffpub", YearCode(year), ".csv")
    ensures Abs(year) >= 10 ==> |name| == 11 && AllDigits(name[5..7]) && DigitsValue(name[5..7]) == Abs(year) % 100
  {
    if Abs(year) >= 10 then CodeBetween("ffpub", year, ".csv"); "ffpub" + YearCode(year) + ".csv"
    else "ffpub" + YearCode(year) + ".csv"
  }

  /** The household member of one year's archive, `hhpub{YY}.csv`. */
  function HouseholdMember(year: int): (name: string)
    ensures Framed(name, "hhpub", YearCode(year), ".csv")
    ensures Abs(year) >= 10 ==> |name| == 11 && AllDigits(name[5..7]) && DigitsValue(name[5..7]) == Abs(year) % 100
  {
    if Abs(year) >= 10 then CodeBetween("hhpub", year, ".csv"); "hhpub" + YearCode(year) + ".csv"
    else "hhpub" + YearCode(year) + ".csv"
  }

  /** For years of at least two digits, two years share a year code exactly
      when their absolute values agree modulo 100, and the code reads back as
      that remainder. */
  lemma YearCodeIdentifiesYear(y1: int, y2: int)
    requires Abs(y1) >= 10 && Abs(y2) >= 10
    ensures AllDigits(YearCode(y1)) && DigitsValue(YearCode(y1)) == Abs(y1) % 100
    ensures YearCode(y1) == YearCode(y2) <==> Abs(y1) % 100 == Abs(y2) % 100
  {
    TwoDigitsRoundTrip(Abs(y1) % 100);
    TwoDigitsRoundTrip(Abs(y2) % 100);
  }

  /** Equal texts with the same fixed start and end have the same middle. */
  lemma MiddleOfFramed(p: string, x: string, y: string, q: string)
    requires p + x + q == p + y + q
    ensures x == y
  {
    var u := p + x + q;
    assert |x| == |y|;
    assert x == u[|p|..|p| + |x|];
  }

  /** The archive name and each member name determine the year code, and so
      are the same for two years exactly when their year codes are. */
  lemma NamesIdentifyYearCode(y1: int, y2: int)
    ensures ArchiveName(y1) == ArchiveName(y2) <==> YearCode(y1) == YearCode(y2)
    ensures PersonMember(y1) == PersonMember(y2) <==> YearCode(y1) == YearCode(y2)
    ensures FamilyMember(y1) == FamilyMember(y2) <==> YearCode(y1) == YearCode(y2)
    ensures HouseholdMember(y1) == HouseholdMember(y2) <==> YearCode(y1) == YearCode(y2)
  {
    if ArchiveName(y1) == ArchiveName(y2) { MiddleOfFramed("asecpub", YearCode(y1), YearCode(y2), "csv.zip"); }
    if PersonMember(y1) == PersonMember(y2) { MiddleOfFramed("pppub", YearCode(y1), YearCode(y2), ".csv"); }
    if FamilyMember(y1) == FamilyMember(y2) { MiddleOfFramed("ffpub", YearCode(y1), YearCode(y2), ".csv"); }
    if HouseholdMember(y1) == HouseholdMember(y2) { MiddleOfFramed("hhpub", YearCode(y1), YearCode(y2), ".csv"); }
  }

  /** The three members of one archive have different names. */
  lemma MemberNamesDistinct(year: int)
    ensures PersonMember(year) != FamilyMember(year)
    ensures PersonMember(year) != HouseholdMember(year)
    ensures FamilyMember(year) != HouseholdMember(year)
  {
    assert PersonMember(year)[0] == 'p' && FamilyMember(year)[0] == 'f' && HouseholdMember(year)[0] == 'h';
  }

  /** Where the shorter of two prefixes of one string ends, the longer goes on. */
  lemma CharAfterPrefix(s1: string, q1: string, s2: string, q2: string)
    requires s1 + q1 == s2 + q2 && |s1| < |s2|
    ensures q1 != [] && q1[0] == s2[|s1|]
  {
    var u := s1 + q1;
    assert u[|s1|] == s2[|s1|];
  }

  /** A digit string followed by a non-digit determines where the digits end. */
  lemma DigitsThenStop(s1: string, q1: string, s2: string, q2: string)
    requires AllDigits(s1) && AllDigits(s2) && q1 != [] && q2 != []
    requires !IsDigit(q1[0]) && !IsDigit(q2[0])
    requires s1 + q1 == s2 + q2
    ensures s1 == s2
  {
    if |s1| < |s2| {
      CharAfterPrefix(s1, q1, s2, q2);
      assert false;
    } else if |s2| < |s1| {
      CharAfterPrefix(s2, q2, s1, q1);
      assert false;
    }
    var u := s1 + q1;
    assert s1 == u[..|s1|] == s2;
  }

  lemma DropPrefix(p: string, a: string, b: string)
    requires p + a == p + b
    ensures a == b
  {
    assert a == (p + a)[|p|..];
  }

  lemma ArchiveUrlSplit(year: nat)
    ensures ArchiveUrl(year) == UrlPrefix + (NatString(year) + ("/march/" + ArchiveName(year)))
  {
  }

  /** The download address names the whole year, not just its code: two
      non-negative years share an address exactly when they are equal. */
  lemma ArchiveUrlIdentifiesYear(y1: nat, y2: nat)
    ensures ArchiveUrl(y1) == ArchiveUrl(y2) <==> y1 == y2
  {
    if ArchiveUrl(y1) == ArchiveUrl(y2) {
      var q1, q2 := "/march/" + ArchiveName(y1), "/march/" + ArchiveName(y2);
      ArchiveUrlSplit(y1);
      ArchiveUrlSplit(y2);
      DropPrefix(UrlPrefix, NatString(y1) + q1, NatString(y2) + q2);
      DigitsThenStop(NatString(y1), q1, NatString(y2), q2);
      NatStringInjective(y1, y2);
    }
  }

  /** The 2020 survey: code "20", archive `asecpub20csv.zip` with members
      `pppub20.csv`, `ffpub20.csv` and `hhpub20.csv`. */
  lemma Names2020()
    ensures YearCode(2020) == "20"
    ensures ArchiveName(2020) == "asecpub20csv.zip"
    ensures PersonMember(2020) == "pppub20.csv"
    ensures FamilyMember(2020) == "ffpub20.csv"
    ensures HouseholdMember(2020) == "hhpub20.csv"
  {
    Code2020();
  }

  lemma Code2020()
    ensures YearCode(2020) == "20"
  {
    assert Abs(2020) % 100 == 20;
    assert TwoDigits(20) == "20" by {
      assert DigitChar(2) == '2' && DigitChar(0) == '0';
    }
  }

  // ---------------------------------------------------------------------------
  // Tax-unit table
  // ---------------------------------------------------------------------------

  const TaxUnitKey: Column := "TAX_ID"

  /** The columns kept from the person table for the tax-unit table. */
  const TaxUnitColumns: seq<Column> := [
    "ACTC_CRD", "AGI", "CTC_CRD", "EIT_CRED", "FED_RET", "FEDTAX_AC",
    "FEDTAX_BC", "MARG_TAX", "STATETAX_A", "STATETAX_B", "TAX_INC", TaxUnitKey
  ]

  /** The columns whose per-unit totals the table holds: all kept columns but
      the grouping key. */
  const TaxUnitSums: set<Column> := SummedColumns(TaxUnitColumns, TaxUnitKey)

  /** `create_tax_unit_table`: fails naming the missing columns when the
      person table lacks one of the kept columns; otherwise gives one row per
      distinct `TAX_ID`, holding the summed columns, each the total of that
      column over the persons of the unit (`TaxUnitTotals`), and at most the
      `TAX_ID` column besides, which depends on the pandas version. */
  function CreateTaxUnitTable(person: Frame): (r: Result<map<int, Row>>)
    requires WellFormed(person)
    ensures r.Ok? <==> forall c :: c in TaxUnitColumns ==> c in person.columns
    ensures r.Err? ==> r.error == MissingColumns(MissingFrom(TaxUnitColumns, person.columns))
    ensures r.Ok? ==> HasColumns(person.rows, {TaxUnitKey} + TaxUnitSums)
    ensures r.Ok? ==> r.value.Keys == KeySet(person.rows, TaxUnitKey)
    ensures r.Ok? ==> forall k :: k in r.value ==> TaxUnitSums <= r.value[k].Keys <= TaxUnitSums + {TaxUnitKey}
    ensures r.Ok? ==> forall k1, k2 :: k1 in r.value && k2 in r.value ==> r.value[k1].Keys == r.value[k2].Keys
  {
    SelectGroupSum(person, TaxUnitColumns, TaxUnitKey)
  }

  /** Each cell of the tax-unit table is the total of its column over the
      persons of the unit. */
  lemma TaxUnitTotals(person: Frame, k: int, c: Column)
    requires WellFormed(person) && CreateTaxUnitTable(person).Ok?
    requires k in CreateTaxUnitTable(person).value && c in TaxUnitSums
    ensures HasColumns(person.rows, {TaxUnitKey, c})
    ensures CreateTaxUnitTable(person).value[k][c] == GroupTotal(person.rows, TaxUnitKey, k, c)
  {
    SelectGroupSumCell(person, TaxUnitColumns, TaxUnitKey, k, c);
  }

  /** Reordering the persons gives the same tax-unit table. */
  lemma TaxUnitTableOrderIndependent(p: Frame, q: Frame)
    requires WellFormed(p) && WellFormed(q) && p.columns == q.columns && multiset(p.rows) == multiset(q.rows)
    ensures CreateTaxUnitTable(p) == CreateTaxUnitTable(q)
  {
    SelectGroupSumPermutation(p, q, TaxUnitColumns, TaxUnitKey);
  }

  /** Two persons of the same tax unit make a one-row table whose every summed
      column is the sum of their two values (`AGI` 100 and 50 give 150). */
  lemma TaxUnitTwoPersons(p1: Row, p2: Row, c: Column)
    requires p1.Keys == p2.Keys && (forall c' :: c' in TaxUnitColumns ==> c' in p1)
    requires TaxUnitKey in p1 && p1[TaxUnitKey] == p2[TaxUnitKey] && c in TaxUnitSums
    ensures CreateTaxUnitTable(Frame(p1.Keys, [p1, p2])).Ok?
    ensures CreateTaxUnitTable(Frame(p1.Keys, [p1, p2])).value.Keys == {p1[TaxUnitKey]}
    ensures CreateTaxUnitTable(Frame(p1.Keys, [p1, p2])).value[p1[TaxUnitKey]][c] == p1[c] + p2[c]
  {
    SelectGroupSumTwoRows(p1, p2, TaxUnitColumns, TaxUnitKey, c);
  }

  // ---------------------------------------------------------------------------
  // SPM-unit table
  // ---------------------------------------------------------------------------

  const SpmUnitKey: Column := "SPM_ID"
  const SpmPrefix: string := "SPM_"

  /** The SPM-unit fields, without their prefix; the last is the unit key. */
  const SpmUnitFields: seq<string> := [
    "ACTC", "CAPHOUSESUB", "CAPWKCCXPNS", "CHILDCAREXPNS", "CHILDSUPPD", "EITC",
    "ENGVAL", "EQUIVSCALE", "FAMTYPE", "FEDTAX", "FEDTAXBC", "FICA", "GEOADJ",
    "HAGE", "HHISP", "HMARITALSTATUS", "HRACE", "MEDXPNS", "NUMADULTS", "NUMKIDS",
    "NUMPER", "POOR", "POVTHRESHOLD", "RESOURCES", "SCHLUNCH", "SNAPSUB", "STTAX",
    "TENMORTSTATUS", "TOTVAL", "WCOHABIT", "WEIGHT", "WFOSTER22", "WICVAL",
    "WKXPNS", "WNEWHEAD", "WNEWPARENT", "WUI_LT15", "ID"
  ]

  /** `[prefix + name for name in names]`: every name with `prefix` in front,
      so that taking the prefix off again gives the names back. */
  function Prefixed(prefix: string, names: seq<string>): (cols: seq<Column>)
    ensures |cols| == |names|
    ensures forall i :: 0 <= i < |cols| ==> |prefix| <= |cols[i]| && cols[i][..|prefix|] == prefix
    ensures Unprefixed(prefix, cols) == names
  {
    seq(|names|, i requires 0 <= i < |names| => prefix + names[i])
  }

  /** Takes `prefix` off every column name that carries it. */
  function Unprefixed(prefix: string, cols: seq<Column>): (names: seq<string>)
    requires forall i :: 0 <= i < |cols| ==> |prefix| <= |cols[i]| && cols[i][..|prefix|] == prefix
  {
    seq(|cols|, i requires 0 <= i < |cols| => cols[i][|prefix|..])
  }

  /** The columns kept for the SPM-unit table; the last is the unit key. */
  function SpmUnitColumns(): (cols: seq<Column>)
    ensures |cols| == 38 && cols[37] == SpmUnitKey
  {
    assert SpmPrefix + SpmUnitFields[37] == SpmUnitKey;
    Prefixed(SpmPrefix, SpmUnitFields)
  }

  lemma FieldsDistinctFrom0(i: int, j: int)
    requires 0 <= i < 5 && i < j < 38
    ensures SpmUnitFields[i] != SpmUnitFields[j]
  {
  }

  lemma FieldsDistinctFrom5(i: int, j: int)
    requires 5 <= i < 10 && i < j < 38
    ensures SpmUnitFields[i] != SpmUnitFields[j]
  {
  }

  lemma FieldsDistinctFrom10(i: int, j: int)
    requires 10 <= i < 20 && i < j < 38
    ensures SpmUnitFields[i] != SpmUnitFields[j]
  {
  }

  lemma FieldsDistinctFrom20(i: int, j: int)
    requires 20 <= i < 38 && i < j < 38
    ensures SpmUnitFields[i] != SpmUnitFields[j]
  {
  }

  /** The 38 SPM fields are pairwise different. */
  lemma FieldsDistinct(i: int, j: int)
    requires 0 <= i < j < 38
    ensures SpmUnitFields[i] != SpmUnitFields[j]
  {
    if i < 5 { FieldsDistinctFrom0(i, j); }
    else if i < 10 { FieldsDistinctFrom5(i, j); }
    else if i < 20 { FieldsDistinctFrom10(i, j); }
    else { FieldsDistinctFrom20(i, j); }
  }

  /** The kept SPM columns are the 38 fields with `SPM_` in front, in list
      order, all different, the last being the key `SPM_ID`; taking the prefix
      off gives the fields back. */
  lemma SpmUnitColumnsListed()
    ensures |SpmUnitColumns()| == 38
    ensures forall i :: 0 <= i < 38 ==> SpmUnitColumns()[i] == "SPM_" + SpmUnitFields[i]
    ensures SpmUnitColumns()[37] == SpmUnitKey
    ensures forall i, j :: 0 <= i < j < 38 ==> SpmUnitColumns()[i] != SpmUnitColumns()[j]
    ensures Unprefixed(SpmPrefix, SpmUnitColumns()) == SpmUnitFields
  {
    var cols := SpmUnitColumns();
    assert cols[37] == "SPM_" + "ID" == SpmUnitKey;
    forall i | 0 <= i < 38 ensures cols[i][..4] == SpmPrefix && cols[i][4..] == SpmUnitFields[i] {
      assert cols[i] == SpmPrefix + SpmUnitFields[i];
    }
    forall i, j | 0 <= i < j < 38 ensures cols[i] != cols[j] {
      FieldsDistinct(i, j);
      assert cols[i][4..] == SpmUnitFields[i] && cols[j][4..] == SpmUnitFields[j];
    }
  }

  /** `create_SPM_unit_table`: fails naming the missing columns when the
      person table lacks one of the kept columns; otherwise gives one row per
      distinct `SPM_ID`, holding the kept columns, each copied from the first
      person of the unit in input order. Whether the row holds `SPM_ID` itself
      depends on the pandas version; when it does, that is the key. */
  function CreateSpmUnitTable(person: Frame): (r: Result<map<int, Row>>)
    requires WellFormed(person)
    ensures r.Ok? <==> forall c :: c in SpmUnitColumns() ==> c in person.columns
    ensures r.Err? ==> r.error == MissingColumns(MissingFrom(SpmUnitColumns(), person.columns))
    ensures r.Ok? ==> HasColumns(person.rows, {SpmUnitKey})
    ensures r.Ok? ==> r.value.Keys == KeySet(person.rows, SpmUnitKey)
    ensures r.Ok? ==> forall k :: k in r.value ==>
              (set c | c in SpmUnitColumns()) - {SpmUnitKey} <= r.value[k].Keys <= (set c | c in SpmUnitColumns())
    ensures r.Ok? ==> forall k1, k2 :: k1 in r.value && k2 in r.value ==> r.value[k1].Keys == r.value[k2].Keys
    ensures r.Ok? ==> forall k, c :: k in r.value && c in r.value[k] ==>
              c in person.rows[FirstIndex(person.rows, SpmUnitKey, k)] &&
              r.value[k][c] == person.rows[FirstIndex(person.rows, SpmUnitKey, k)][c]
    ensures r.Ok? ==> forall k :: k in r.value && SpmUnitKey in r.value[k] ==> r.value[k][SpmUnitKey] == k
  {
    SpmUnitColumnsListed();
    assert SpmUnitKey in SpmUnitColumns();
    SelectGroupFirst(person, SpmUnitColumns(), SpmUnitKey)
  }

  /** When every member of an SPM unit holds the same value in a kept column,
      the unit's row holds that value, whatever the order of the persons. */
  lemma SpmUnitUniformField(p: Frame, q: Frame, k: int, c: Column, v: int)
    requires WellFormed(p) && WellFormed(q) && p.columns == q.columns && multiset(p.rows) == multiset(q.rows)
    requires forall c' :: c' in SpmUnitColumns() ==> c' in p.columns
    requires c in SpmUnitColumns() && HasColumns(p.rows, {SpmUnitKey, c}) && HasColumns(p.rows, {SpmUnitKey})
    requires k in KeySet(p.rows, SpmUnitKey)
    requires forall i :: 0 <= i < |p.rows| && p.rows[i][SpmUnitKey] == k ==> p.rows[i][c] == v
    ensures CreateSpmUnitTable(p).Ok? && k in CreateSpmUnitTable(p).value
    ensures CreateSpmUnitTable(q).Ok? && k in CreateSpmUnitTable(q).value
    ensures c != SpmUnitKey ==> c in CreateSpmUnitTable(p).value[k] && c in CreateSpmUnitTable(q).value[k]
    ensures c in CreateSpmUnitTable(p).value[k] ==> CreateSpmUnitTable(p).value[k][c] == v
    ensures c in CreateSpmUnitTable(q).value[k] ==> CreateSpmUnitTable(q).value[k][c] == v
  {
    SpmUnitColumnsListed();
    assert SpmUnitKey in SpmUnitColumns();
    SelectGroupFirstUniform(p, q, SpmUnitColumns(), SpmUnitKey, k, c, v);
  }

  // ---------------------------------------------------------------------------
  // The derivation step of generate
  // ---------------------------------------------------------------------------

  /** The five tables stored for one year. */
  datatype Store = Store(person: Frame, family: Frame, household: Frame, taxUnit: map<int, Row>, spmUnit: map<int, Row>)

  /** Lines 40-48 of `generate` for given member names, with the unpacked
      archive as a map from member name to parsed table: read the person,
      family and household members with missing values set to 0, then derive
      the tax-unit and SPM-unit tables from the persons. The first step that
      fails decides the error. */
  function Unpack(personName: string, familyName: string, householdName: string, archive: map<string, RawFrame>): (r: Result<Store>)
    requires forall name :: name in archive ==> RawWellFormed(archive[name])
    ensures personName !in archive ==> r == Err(MissingMember(personName))
    ensures personName in archive && familyName !in archive ==> r == Err(MissingMember(familyName))
    ensures personName in archive && familyName in archive && householdName !in archive ==>
              r == Err(MissingMember(householdName))
    ensures personName in archive && familyName in archive && householdName in archive &&
            !(forall c :: c in TaxUnitColumns ==> c in archive[personName].columns) ==>
              r == Err(MissingColumns(MissingFrom(TaxUnitColumns, archive[personName].columns)))
    ensures personName in archive && familyName in archive && householdName in archive &&
            (forall c :: c in TaxUnitColumns ==> c in archive[personName].columns) &&
            !(forall c :: c in SpmUnitColumns() ==> c in archive[personName].columns) ==>
              r == Err(MissingColumns(MissingFrom(SpmUnitColumns(), archive[personName].columns)))
    ensures r.Ok? <==>
              personName in archive && familyName in archive && householdName in archive &&
              (forall c :: c in TaxUnitColumns ==> c in archive[personName].columns) &&
              (forall c :: c in SpmUnitColumns() ==> c in archive[personName].columns)
    ensures r.Ok? ==>
              r.value.person == FillNa(archive[personName]) &&
              r.value.family == FillNa(archive[familyName]) &&
              r.value.household == FillNa(archive[householdName])
    ensures r.Ok? ==>
              WellFormed(r.value.person) &&
              CreateTaxUnitTable(r.value.person) == Ok(r.value.taxUnit) &&
              CreateSpmUnitTable(r.value.person) == Ok(r.value.spmUnit)
  {
    if personName !in archive then Err(MissingMember(personName))
    else if familyName !in archive then Err(MissingMember(familyName))
    else if householdName !in archive then Err(MissingMember(householdName))
    else
      var person := FillNa(archive[personName]);
      match CreateTaxUnitTable(person)
      case Err(e) => Err(e)
      case Ok(taxUnit) =>
        match CreateSpmUnitTable(person)
        case Err(e) => Err(e)
        case Ok(spmUnit) =>
          Ok(Store(person, FillNa(archive[familyName]), FillNa(archive[householdName]), taxUnit, spmUnit))
  }

  /** `generate` for one year: `Unpack` with the year's member names. */
  function Generate(year: int, archive: map<string, RawFrame>): (r: Result<Store>)
    requires forall name :: name in archive ==> RawWellFormed(archive[name])
    ensures PersonMember(year) !in archive ==> r == Err(MissingMember(PersonMember(year)))
    ensures PersonMember(year) in archive && FamilyMember(year) !in archive ==> r == Err(MissingMember(FamilyMember(year)))
    ensures PersonMember(year) in archive && FamilyMember(year) in archive && HouseholdMember(year) !in archive ==>
              r == Err(MissingMember(HouseholdMember(year)))
    ensures PersonMember(year) in archive && FamilyMember(year) in archive && HouseholdMember(year) in archive &&
            !(forall c :: c in TaxUnitColumns ==> c in archive[PersonMember(year)].columns) ==>
              r == Err(MissingColumns(MissingFrom(TaxUnitColumns, archive[PersonMember(year)].columns)))
    ensures PersonMember(year) in archive && FamilyMember(year) in archive && HouseholdMember(year) in archive &&
            (forall c :: c in TaxUnitColumns ==> c in archive[PersonMember(year)].columns) &&
            !(forall c :: c in SpmUnitColumns() ==> c in archive[PersonMember(year)].columns) ==>
              r == Err(MissingColumns(MissingFrom(SpmUnitColumns(), archive[PersonMember(year)].columns)))
    ensures r.Ok? <==>
              PersonMember(year) in archive && FamilyMember(year) in archive && HouseholdMember(year) in archive &&
              (forall c :: c in TaxUnitColumns ==> c in archive[PersonMember(year)].columns) &&
              (forall c :: c in SpmUnitColumns() ==> c in archive[PersonMember(year)].columns)
    ensures r.Ok? ==>
              r.value.person == FillNa(archive[PersonMember(year)]) &&
              r.value.family == FillNa(archive[FamilyMember(year)]) &&
              r.value.household == FillNa(archive[HouseholdMember(year)])
    ensures r.Ok? ==>
              WellFormed(r.value.person) &&
              CreateTaxUnitTable(r.value.person) == Ok(r.value.taxUnit) &&
              CreateSpmUnitTable(r.value.person) == Ok(r.value.spmUnit)
  {
    Unpack(PersonMember(year), FamilyMember(year), HouseholdMember(year), archive)
  }

  /** The stored tax-unit totals count only the values present in the person
      member: a missing cell adds nothing to its unit's total. */
  lemma GenerateTaxUnitTotals(year: int, archive: map<string, RawFrame>, k: int, c: Column)
    requires forall name :: name in archive ==> RawWellFormed(archive[name])
    requires Generate(year, archive).Ok? && k in Generate(year, archive).value.taxUnit && c in TaxUnitSums
    ensures c in Generate(year, archive).value.taxUnit[k]
    ensures forall i :: 0 <= i < |archive[PersonMember(year)].rows| ==>
              TaxUnitKey in archive[PersonMember(year)].rows[i] && c in archive[PersonMember(year)].rows[i]
    ensures Generate(year, archive).value.taxUnit[k][c] == PresentTotal(archive[PersonMember(year)].rows, TaxUnitKey, k, c)
  {
    var raw := archive[PersonMember(year)];
    var store := Generate(year, archive).value;
    assert store.person == FillNa(raw) && CreateTaxUnitTable(store.person) == Ok(store.taxUnit);
    assert TaxUnitKey in raw.columns && c in raw.columns;
    TaxUnitTotals(store.person, k, c);
    FilledTotalIsPresentTotal(raw, TaxUnitKey, k, c);
  }
}
