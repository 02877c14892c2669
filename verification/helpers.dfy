/**
 * The pure utilities every controller shares: pagination, percentage and letter
 * grade, URL slugs and request-body filtering.
 */
module Helpers {
  import opened Wrappers
  import opened Text
  import Numeric

  // ----- pagination -----

  datatype Pagination = Pagination(page: int, limit: int, skip: int)

  /**
   * `getPagination`: a missing page defaults to 1 and a missing limit to 10 (the
   * parameters are the results of `parseInt`); the page is raised to at least 1,
   * the limit clamped into [1, 100], and `skip` counts the entries on earlier pages.
   */
  function GetPagination(page: Option<int>, limit: Option<int>): (r: Pagination)
    ensures r.page >= 1 && 1 <= r.limit <= 100
    ensures r.skip == (r.page - 1) * r.limit && r.skip >= 0
    ensures r.page == (if page.Some? && page.value >= 1 then page.value else 1)
    ensures limit.None? ==> r.limit == 10
    ensures limit.Some? ==> r.limit == (if limit.value < 1 then 1 else if limit.value > 100 then 100 else limit.value)
  {
    var p := if page.Some? then page.value else 1;
    var l := if limit.Some? then limit.value else 10;
    var parsedPage := if p < 1 then 1 else p;
    var parsedLimit := if l < 1 then 1 else if l > 100 then 100 else l;
    Pagination(parsedPage, parsedLimit, (parsedPage - 1) * parsedLimit)
  }

  datatype PaginationMeta = PaginationMeta(total: nat, page: int, limit: int, totalPages: nat,
                                           hasNextPage: bool, hasPrevPage: bool)

  /** `Math.ceil(total / limit)` for a positive limit. */
  function CeilDiv(total: nat, limit: int): (r: nat)
    requires limit >= 1
    ensures r * limit >= total
    ensures r == 0 || (r - 1) * limit < total
  {
    (total + limit - 1) / limit
  }

  /**
   * `getPaginationMeta`, called with the limit `getPagination` produced (so at least 1).
   * The flags say whether a later or an earlier page exists.
   */
  function GetPaginationMeta(total: nat, page: int, limit: int): (r: PaginationMeta)
    requires limit >= 1
    ensures r.total == total && r.page == page && r.limit == limit
    ensures r.totalPages * limit >= total && (r.totalPages == 0 || (r.totalPages - 1) * limit < total)
    ensures r.hasNextPage <==> page * limit < total
    ensures r.hasPrevPage <==> page > 1
  {
    var totalPages := CeilDiv(total, limit);
    NextPageExists(total, page, limit, totalPages);
    PaginationMeta(total, page, limit, totalPages, page < totalPages, page > 1)
  }

  /** A page precedes the last one exactly when some entry lies beyond it. */
  lemma NextPageExists(total: nat, page: int, limit: int, totalPages: nat)
    requires limit >= 1
    requires totalPages * limit >= total && (totalPages == 0 || (totalPages - 1) * limit < total)
    ensures page < totalPages <==> page * limit < total
  {
    if page < totalPages {
      assert page <= totalPages - 1;
      assert page * limit <= (totalPages - 1) * limit by {
        MulMonotone(page, totalPages - 1, limit);
      }
    } else {
      MulMonotone(totalPages, page, limit);
    }
  }

  lemma MulMonotone(a: int, b: int, c: int)
    requires a <= b && c >= 0
    ensures a * c <= b * c
  {
  }

  // ----- percentage and letter grade -----

  /** `calculatePercentage`: 0 for a zero total, else the ratio as a percentage to two places. */
  function CalculatePercentage(value: real, total: real): (r: real)
    ensures total == 0.0 ==> r == 0.0
    ensures total != 0.0 ==> r == Numeric.Round2(value / total * 100.0)
    ensures total > 0.0 && 0.0 <= value <= total ==> 0.0 <= r <= 100.0
    ensures total > 0.0 && value == total ==> r == 100.0
  {
    if total == 0.0 then 0.0
    else
      PercentageFacts(value, total);
      Numeric.Round2Hundred();
      Numeric.Round2(value / total * 100.0)
  }

  lemma PercentageInRange(value: real, total: real)
    requires total > 0.0 && 0.0 <= value <= total
    ensures 0.0 <= value / total * 100.0 <= 100.0
  {
    assert value / total <= 1.0;
  }

  /** The unrounded percentage of a share of a positive total lies in [0, 100], and the whole is 100. */
  lemma PercentageFacts(value: real, total: real)
    ensures total > 0.0 && 0.0 <= value <= total ==> 0.0 <= value / total * 100.0 <= 100.0
    ensures total > 0.0 && value == total ==> value / total * 100.0 == 100.0
  {
    if total > 0.0 && 0.0 <= value <= total {
      PercentageInRange(value, total);
    }
    if total > 0.0 && value == total {
      assert value / total == 1.0;
    }
  }

  /** The eleven letter grades. */
  datatype Letter = APlus | A | AMinus | BPlus | B | BMinus | CPlus | C | CMinus | D | F

  /** The letter as the system writes it. */
  function LetterName(l: Letter): string
  {
    match l
    case APlus => "A+"   case A => "A"   case AMinus => "A-"
    case BPlus => "B+"   case B => "B"   case BMinus => "B-"
    case CPlus => "C+"   case C => "C"   case CMinus => "C-"
    case D => "D"        case F => "F"
  }

  /** The order of the letters, F lowest. */
  function Rank(l: Letter): nat
  {
    match l
    case F => 0        case D => 1     case CMinus => 2
    case C => 3        case CPlus => 4 case BMinus => 5
    case B => 6        case BPlus => 7 case AMinus => 8
    case A => 9        case APlus => 10
  }

  /** The least percentage that earns a letter (F has no lower bound). */
  function MinPercent(l: Letter): real
  {
    match l
    case APlus => 90.0  case A => 85.0      case AMinus => 80.0
    case BPlus => 75.0  case B => 70.0      case BMinus => 65.0
    case CPlus => 60.0  case C => 55.0      case CMinus => 50.0
    case D => 45.0      case F => 0.0
  }

  /** A percentage earns a letter when it reaches the letter's threshold; F is earned by all. */
  predicate Qualifies(l: Letter, p: real)
  {
    l == F || p >= MinPercent(l)
  }

  /**
   * `calculateGrade`: the threshold cascade from 90 (A+) down to 45 (D), else F.
   * The result is the highest letter the percentage qualifies for.
   */
  function CalculateGrade(p: real): (r: Letter)
    ensures Qualifies(r, p)
    ensures forall l :: Rank(l) > Rank(r) ==> !Qualifies(l, p)
  {
    if p >= 90.0 then APlus
    else if p >= 85.0 then A
    else if p >= 80.0 then AMinus
    else if p >= 75.0 then BPlus
    else if p >= 70.0 then B
    else if p >= 65.0 then BMinus
    else if p >= 60.0 then CPlus
    else if p >= 55.0 then C
    else if p >= 50.0 then CMinus
    else if p >= 45.0 then D
    else F
  }

  /** A higher percentage never earns a lower letter. */
  lemma GradeMonotone(p: real, q: real)
    requires p <= q
    ensures Rank(CalculateGrade(p)) <= Rank(CalculateGrade(q))
  {
    var lp := CalculateGrade(p);
    assert Qualifies(lp, q);
  }

  /** Distinct letters are written differently. */
  lemma LetterNameInjective(l: Letter, m: Letter)
    requires LetterName(l) == LetterName(m)
    ensures l == m
  {
  }

  // ----- slugify -----

  /** The regular-expression class `\w`. */
  predicate IsWordChar(c: char)
  {
    ('a' <= c <= 'z') || ('A' <= c <= 'Z') || ('0' <= c <= '9') || c == '_'
  }

  /** The class `[\s_-]` whose runs become a single hyphen. */
  predicate IsSeparator(c: char)
  {
    IsSpace(c) || c == '_' || c == '-'
  }

  predicate IsSlugChar(c: char)
  {
    ('a' <= c <= 'z') || ('0' <= c <= '9') || c == '-'
  }

  /** Slug characters with no two hyphens in a row; a slug once the end hyphens are gone. */
  predicate SlugCharsOnly(s: string)
  {
    && (forall i :: 0 <= i < |s| ==> IsSlugChar(s[i]))
    && (forall i :: 0 <= i < |s| - 1 ==> !(s[i] == '-' && s[i + 1] == '-'))
  }

  /** What a slug looks like: lower-case letters, digits and single inner hyphens. */
  predicate IsSlug(s: string)
  {
    && (forall i :: 0 <= i < |s| ==> IsSlugChar(s[i]))
    && (forall i :: 0 <= i < |s| - 1 ==> !(s[i] == '-' && s[i + 1] == '-'))
    && (|s| > 0 ==> s[0] != '-' && s[|s| - 1] != '-')
  }

  /** `replace(/[^\w\s-]/g, '')`. */
  function KeepSlugChars(s: string): (r: string)
    ensures |r| <= |s|
    ensures forall i :: 0 <= i < |r| ==> (IsWordChar(r[i]) || IsSpace(r[i]) || r[i] == '-') && r[i] in s
    ensures (forall i :: 0 <= i < |s| ==> IsWordChar(s[i]) || IsSpace(s[i]) || s[i] == '-') ==> r == s
  {
    if |s| == 0 then []
    else
      var rest := KeepSlugChars(s[1..]);
      if IsWordChar(s[0]) || IsSpace(s[0]) || s[0] == '-' then [s[0]] + rest else rest
  }

  /** Drops a leading run of separators. */
  function DropSeparators(s: string): (r: string)
    ensures |r| <= |s| && r == s[|s| - |r|..]
    ensures |r| > 0 ==> !IsSeparator(r[0])
  {
    if |s| > 0 && IsSeparator(s[0]) then DropSeparators(s[1..]) else s
  }

  /** `replace(/[\s_-]+/g, '-')`: every maximal run of separators becomes one hyphen. */
  function CollapseSeparators(s: string): (r: string)
    ensures |s| > 0 <==> |r| > 0
    ensures |r| > 0 ==> (r[0] == '-' <==> IsSeparator(s[0]))
    ensures (forall i :: 0 <= i < |s| ==> !IsSeparator(s[i])) ==> r == s
    decreases |s|
  {
    if |s| == 0 then []
    else if IsSeparator(s[0]) then "-" + CollapseSeparators(DropSeparators(s[1..]))
    else [s[0]] + CollapseSeparators(s[1..])
  }

  /** A character `[\w\s-]` keeps once the input is lower-cased. */
  predicate KeptChar(c: char)
  {
    (IsWordChar(c) || IsSpace(c) || c == '-') && !IsUpperAscii(c)
  }

  /**
   * After collapsing, no two hyphens are adjacent, and every other character is a
   * kept non-separator.
   */
  lemma {:induction false} CollapseShape(s: string)
    requires forall i :: 0 <= i < |s| ==> KeptChar(s[i])
    ensures forall i :: 0 <= i < |CollapseSeparators(s)| ==>
      var c := CollapseSeparators(s)[i]; c == '-' || (!IsSeparator(c) && KeptChar(c))
    ensures forall i :: 0 <= i < |CollapseSeparators(s)| - 1 ==>
      !(CollapseSeparators(s)[i] == '-' && CollapseSeparators(s)[i + 1] == '-')
    decreases |s|
  {
    if |s| > 0 {
      var r := CollapseSeparators(s);
      if IsSeparator(s[0]) {
        var t := DropSeparators(s[1..]);
        assert forall i :: 0 <= i < |t| ==> t[i] == s[|s| - |t| + i];
        CollapseShape(t);
        assert r == "-" + CollapseSeparators(t);
      } else {
        CollapseShape(s[1..]);
        assert r == [s[0]] + CollapseSeparators(s[1..]);
      }
    }
  }

  function StripLeadingHyphens(s: string): (r: string)
    ensures |r| <= |s| && r == s[|s| - |r|..]
    ensures |r| > 0 ==> r[0] != '-'
  {
    if |s| > 0 && s[0] == '-' then StripLeadingHyphens(s[1..]) else s
  }

  function StripTrailingHyphens(s: string): (r: string)
    ensures |r| <= |s| && r == s[..|r|]
    ensures |r| > 0 ==> r[|r| - 1] != '-'
  {
    if |s| > 0 && s[|s| - 1] == '-' then StripTrailingHyphens(s[..|s| - 1]) else s
  }

  /** The number of hyphens `StripLeadingHyphens` removes. */
  function LeadingHyphens(s: string): (n: nat)
    ensures n <= |s|
  {
    |s| - |StripLeadingHyphens(s)|
  }

  /** `replace(/^-+|-+$/g, '')`. */
  function StripHyphens(s: string): (r: string)
    ensures |r| <= |s|
    ensures LeadingHyphens(s) <= |s| - |r| && r == s[LeadingHyphens(s)..][..|r|]
    ensures |r| > 0 ==> r[0] != '-' && r[|r| - 1] != '-'
  {
    var t := StripLeadingHyphens(s);
    var r := StripTrailingHyphens(t);
    assert r == s[|s| - |t|..][..|r|];
    r
  }

  /**
   * `slugify`: lower-case, trim, delete characters outside `[\w\s-]`, turn each run
   * of white space, underscores and hyphens into one hyphen, and drop hyphens at
   * either end. The result is a slug.
   */
  function Slugify(s: string): (r: string)
    ensures IsSlug(r)
  {
    var collapsed := CollapseSeparators(KeepSlugChars(Trim(Lower(s))));
    CollapsedShape(s);
    StrippedIsSlug(collapsed);
    StripHyphens(collapsed)
  }

  /** Deleting characters cannot introduce an upper-case letter. */
  lemma {:induction false} KeptCharsHaveNoUpper(s: string)
    requires forall i :: 0 <= i < |s| ==> !IsUpperAscii(s[i])
    ensures forall i :: 0 <= i < |KeepSlugChars(s)| ==> KeptChar(KeepSlugChars(s)[i])
    decreases |s|
  {
    if |s| > 0 {
      KeptCharsHaveNoUpper(s[1..]);
    }
  }

  /** Stripping the end hyphens from slug characters without doubled hyphens leaves a slug. */
  lemma StrippedIsSlug(s: string)
    requires SlugCharsOnly(s)
    ensures IsSlug(StripHyphens(s))
  {
    SlugOfInfix(s, StripHyphens(s), LeadingHyphens(s));
  }

  /** Lower-casing and then trimming leaves no upper-case letter. */
  lemma TrimmedLowerHasNoUpper(s: string)
    ensures forall i :: 0 <= i < |Trim(Lower(s))| ==> !IsUpperAscii(Trim(Lower(s))[i])
  {
    LowerTrimCommute(s);
  }

  /** The input to the final hyphen strip is made of slug characters with no doubled hyphen. */
  lemma CollapsedShape(s: string)
    ensures SlugCharsOnly(CollapseSeparators(KeepSlugChars(Trim(Lower(s)))))
  {
    var lowered := Trim(Lower(s));
    var kept := KeepSlugChars(lowered);
    TrimmedLowerHasNoUpper(s);
    KeptCharsHaveNoUpper(lowered);
    CollapseShape(kept);
  }

  lemma SlugOfInfix(s: string, r: string, k: nat)
    requires forall i :: 0 <= i < |s| ==> IsSlugChar(s[i])
    requires forall i :: 0 <= i < |s| - 1 ==> !(s[i] == '-' && s[i + 1] == '-')
    requires 0 <= k <= |s| - |r| && r == s[k..][..|r|]
    requires |r| > 0 ==> r[0] != '-' && r[|r| - 1] != '-'
    ensures IsSlug(r)
  {
    assert forall i :: 0 <= i < |r| ==> r[i] == s[k + i];
  }

  /** A slug is left unchanged by every stage of `slugify`. */
  lemma {:induction false} SlugIsFixedPoint(s: string)
    requires IsSlug(s)
    ensures Slugify(s) == s
  {
    LowerFixed(s);
    TrimStartFixed(s);
    TrimEndFixed(s);
    KeepFixed(s);
    CollapseFixed(s);
    StripLeadingFixed(s);
    StripTrailingFixed(s);
  }

  /** `slugify` is idempotent. */
  lemma SlugifyIdempotent(s: string)
    ensures Slugify(Slugify(s)) == Slugify(s)
  {
    SlugIsFixedPoint(Slugify(s));
  }

  lemma {:induction false} LowerFixed(s: string)
    requires forall i :: 0 <= i < |s| ==> !IsUpperAscii(s[i])
    ensures Lower(s) == s
  {
  }

  lemma {:induction false} KeepFixed(s: string)
    requires forall i :: 0 <= i < |s| ==> IsSlugChar(s[i])
    ensures KeepSlugChars(s) == s
    decreases |s|
  {
    if |s| > 0 {
      KeepFixed(s[1..]);
    }
  }

  lemma {:induction false} CollapseFixed(s: string)
    requires forall i :: 0 <= i < |s| ==> IsSlugChar(s[i])
    requires forall i :: 0 <= i < |s| - 1 ==> !(s[i] == '-' && s[i + 1] == '-')
    ensures CollapseSeparators(s) == s
    decreases |s|
  {
    if |s| > 0 {
      CollapseFixed(s[1..]);
      if s[0] == '-' {
        assert |s| == 1 || s[1] != '-';
        assert DropSeparators(s[1..]) == s[1..];
      } else {
        assert !IsSeparator(s[0]);
      }
    }
  }

  lemma StripLeadingFixed(s: string)
    requires |s| == 0 || s[0] != '-'
    ensures StripLeadingHyphens(s) == s
  {
  }

  lemma StripTrailingFixed(s: string)
    requires |s| == 0 || s[|s| - 1] != '-'
    ensures StripTrailingHyphens(s) == s
  {
  }

  // ----- filterObject -----

  /** A JavaScript property value: `undefined`, `null`, or something else. */
  datatype JsValue<T> = Undefined | Null | Defined(value: T)

  /** Whether `filterObject` keeps a key; a given list of allowed fields (even an empty one) restricts it. */
  predicate Kept<T>(obj: map<string, JsValue<T>>, allowed: Option<seq<string>>, k: string)
  {
    k in obj && obj[k].Defined? && (allowed.None? || k in allowed.value)
  }

  /**
   * `filterObject`: keeps exactly the keys whose value is neither null nor
   * undefined (and that are allowed, when a list is given), with their values.
   */
  function FilterObject<T>(obj: map<string, JsValue<T>>, allowed: Option<seq<string>>): (r: map<string, JsValue<T>>)
    ensures forall k :: k in r ==> k in obj && r[k] == obj[k] && r[k].Defined?
    ensures forall k :: k in obj && obj[k].Defined? && (allowed.None? || k in allowed.value) ==> k in r
    ensures allowed.Some? ==> r.Keys <= set k | k in allowed.value
  {
    map k | k in obj && Kept(obj, allowed, k) :: obj[k]
  }

  /** Filtering an already filtered object changes nothing. */
  lemma FilterObjectIdempotent<T>(obj: map<string, JsValue<T>>, allowed: Option<seq<string>>)
    ensures FilterObject(FilterObject(obj, allowed), allowed) == FilterObject(obj, allowed)
  {
  }

  /** Without a field list, filtering removes exactly the null and undefined entries. */
  lemma FilterObjectUnrestricted<T>(obj: map<string, JsValue<T>>)
    ensures |FilterObject(obj, None)| + |set k | k in obj && !obj[k].Defined?| == |obj|
  {
    var r := FilterObject(obj, None);
    var dropped := set k | k in obj && !obj[k].Defined?;
    assert r.Keys + dropped == obj.Keys;
    assert r.Keys * dropped == {};
  }
}
