/** Query-string paging and the nearby-search radius: `normalizePage`, copied
    verbatim into the users, regions and restaurants services, the way the
    ORM applies `skip`/`take`, and the radius clamp of `findNearby`. */
module Paging {
  import opened Common

  /** A JavaScript number as `Number(...)` yields it from a query value. */
  datatype JsNumber = NaN | NegInf | PosInf | Finite(x: real)

  /** `n >= c` for a finite bound `c`; NaN compares false. */
  predicate AtLeast(n: JsNumber, c: real) {
    n.PosInf? || (n.Finite? && n.x >= c)
  }

  /** `n > c` for a finite bound `c`; NaN compares false. */
  predicate Exceeds(n: JsNumber, c: real) {
    n.PosInf? || (n.Finite? && n.x > c)
  }

  /** `Math.floor`: the greatest integer not above a finite number; the
      infinities and NaN are returned as they are. */
  function JsFloor(n: JsNumber): (r: JsNumber)
    ensures n.Finite? ==> r.Finite? && r.x <= n.x < r.x + 1.0 && r.x == r.x.Floor as real
    ensures !n.Finite? ==> r == n
  {
    if n.Finite? then Finite(n.x.Floor as real) else n
  }

  /** `Math.min(n, c)` for a finite bound `c`. */
  function JsMin(n: JsNumber, c: real): (r: JsNumber)
    ensures n.NaN? ==> r.NaN?
    ensures !n.NaN? ==> r.Finite? || r.NegInf?
    ensures r.Finite? ==> r.x <= c && (r.x == c || (n.Finite? && r.x == n.x))
  {
    match n
    case NaN => NaN
    case NegInf => NegInf
    case PosInf => Finite(c)
    case Finite(x) => Finite(if x <= c then x else c)
  }

  /** The largest page `normalizePage` lets through. */
  const MaxTake: nat := 100

  /** `opts`: each field, when given, already converted by `Number(...)`. */
  datatype RawPage = RawPage(skip: Option<JsNumber>, take: Option<JsNumber>)

  /** The `PageOpts` object `normalizePage` builds, with its numbers as JavaScript numbers. */
  datatype JsPage = JsPage(skip: Option<JsNumber>, take: Option<JsNumber>)

  /** `normalizePage` as written: a field is kept when it is not NaN and
      `>= 0` (skip) or `> 0` (take); skip is floored, take floored and capped. */
  function NormalizePageAsWritten(opts: Option<RawPage>): (r: Option<JsPage>)
    ensures r.None? <==> opts.None?
    ensures r.Some? ==> (r.value.skip.Some? <==> opts.value.skip.Some? && AtLeast(opts.value.skip.value, 0.0))
    ensures r.Some? ==> (r.value.take.Some? <==> opts.value.take.Some? && Exceeds(opts.value.take.value, 0.0))
    ensures r.Some? && r.value.take.Some? ==> r.value.take.value.Finite? && 0.0 <= r.value.take.value.x <= MaxTake as real
  {
    if opts.None? then None
    else
      var skip := opts.value.skip;
      var take := opts.value.take;
      Some(JsPage(
        if skip.Some? && !skip.value.NaN? && AtLeast(skip.value, 0.0) then Some(JsFloor(skip.value)) else None,
        if take.Some? && !take.value.NaN? && Exceeds(take.value, 0.0)
        then Some(JsMin(JsFloor(take.value), MaxTake as real)) else None))
  }

  /** What the ORM is given: natural offsets and page sizes. */
  datatype PageOpts = PageOpts(skip: Option<nat>, take: Option<nat>)

  function SkipOf(n: Option<JsNumber>): Option<nat> {
    if n.Some? && n.value.Finite? && n.value.x >= 0.0 then Some(n.value.x.Floor as nat) else None
  }

  function TakeOf(n: Option<JsNumber>): Option<nat> {
    if n.Some? && Exceeds(n.value, 0.0) then
      Some(if n.value.PosInf? || n.value.x >= MaxTake as real then MaxTake else n.value.x.Floor as nat)
    else None
  }

  /** `normalizePage` as evidently intended: the same rules, except that
      an infinite skip is dropped like a negative one, so every offset it
      yields is a natural number. */
  function NormalizePage(opts: Option<RawPage>): (r: Option<PageOpts>)
    ensures r.None? <==> opts.None?
    ensures r.Some? ==> (r.value.skip.Some? <==>
              opts.value.skip.Some? && opts.value.skip.value.Finite? && opts.value.skip.value.x >= 0.0)
    ensures r.Some? && r.value.skip.Some? ==>
              r.value.skip.value as real <= opts.value.skip.value.x < r.value.skip.value as real + 1.0
    ensures r.Some? ==> (r.value.take.Some? <==> opts.value.take.Some? && Exceeds(opts.value.take.value, 0.0))
    ensures r.Some? && r.value.take.Some? ==> r.value.take.value <= MaxTake
    ensures r.Some? && opts.value.take.Some? && AtLeast(opts.value.take.value, 1.0) ==> r.value.take.value >= 1
  {
    if opts.None? then None else Some(PageOpts(SkipOf(opts.value.skip), TakeOf(opts.value.take)))
  }

  /** A natural-number page written back as JavaScript numbers. */
  function AsJs(p: PageOpts): JsPage {
    JsPage(if p.skip.Some? then Some(Finite(p.skip.value as real)) else None,
           if p.take.Some? then Some(Finite(p.take.value as real)) else None)
  }

  /** The written and the intended normaliser agree on every input except
      an infinite skip. */
  lemma NormalizePageAgreement(opts: RawPage)
    ensures NormalizePageAsWritten(Some(opts)) == Some(AsJs(NormalizePage(Some(opts)).value))
            <==> opts.skip != Some(PosInf)
  {
    var written := NormalizePageAsWritten(Some(opts)).value;
    var meant := AsJs(NormalizePage(Some(opts)).value);
    if opts.skip == Some(PosInf) {
      assert written.skip == Some(PosInf) != meant.skip;
    } else {
      assert written.skip == meant.skip;
      if opts.take.Some? && opts.take.value.Finite? && opts.take.value.x > 0.0 {
        var x := opts.take.value.x;
        if x >= MaxTake as real {
          assert x.Floor >= MaxTake;
        } else {
          assert x.Floor < MaxTake;
        }
      }
      assert written.take == meant.take;
    }
  }

  /** `GET /users?skip=Infinity`: `Number("Infinity")` is not NaN and is
      `>= 0`, and `Math.floor` keeps it infinite, so the written normaliser
      hands the ORM an offset that is no row position; the intended one drops it. */
  lemma InfiniteSkipSurvives()
    ensures NormalizePageAsWritten(Some(RawPage(Some(PosInf), None))) == Some(JsPage(Some(PosInf), None))
    ensures NormalizePage(Some(RawPage(Some(PosInf), None))) == Some(PageOpts(None, None))
  {
  }

  /** On the integers `ParseIntPipe` delivers (regions, restaurants) the two
      normalisers coincide. */
  lemma IntegerInputsAgree(skip: Option<int>, take: Option<int>)
    ensures var opts := RawPage(if skip.Some? then Some(Finite(skip.value as real)) else None,
                                if take.Some? then Some(Finite(take.value as real)) else None);
            NormalizePageAsWritten(Some(opts)) == Some(AsJs(NormalizePage(Some(opts)).value))
  {
    var opts := RawPage(if skip.Some? then Some(Finite(skip.value as real)) else None,
                        if take.Some? then Some(Finite(take.value as real)) else None);
    NormalizePageAgreement(opts);
  }

  /** Normalising an already normalised page selects the same rows. (A take
      in (0, 1) floors to 0, which the ORM reads as no limit, and which a
      second pass drops as not positive; both leave the page unbounded.) */
  lemma NormalizePageIdempotent<T>(rows: seq<T>, opts: RawPage)
    ensures var p := NormalizePage(Some(opts)).value;
            ApplyPage(rows, NormalizePage(Some(RawPage(AsJs(p).skip, AsJs(p).take)))) == ApplyPage(rows, Some(p))
  {
    var p := NormalizePage(Some(opts)).value;
    var q := NormalizePage(Some(RawPage(AsJs(p).skip, AsJs(p).take))).value;
    if p.take.Some? {
      assert (p.take.value as real).Floor == p.take.value;
    }
    if p.skip.Some? {
      assert (p.skip.value as real).Floor == p.skip.value;
    }
    assert q.skip == p.skip;
    assert q.take == p.take || (p.take == Some(0) && q.take.None?);
  }

  /** Where a page starts: `skip` rows in, or the end of the rows. */
  function Start(n: nat, skip: Option<nat>): (k: nat)
    ensures k <= n
    ensures skip.Some? && skip.value <= n ==> k == skip.value
    ensures skip.None? ==> k == 0
  {
    if skip.None? then 0 else if skip.value < n then skip.value else n
  }

  /** TypeORM's `skip`/`take` over the rows the query orders; a `take` of 0
      is falsy and so, like an absent one, sets no limit. */
  function Paginate<T>(rows: seq<T>, skip: Option<nat>, take: Option<nat>): (r: seq<T>)
    ensures Start(|rows|, skip) + |r| <= |rows|
    ensures forall i :: 0 <= i < |r| ==> r[i] == rows[Start(|rows|, skip) + i]
    ensures take.Some? && take.value > 0 ==> |r| == Min(take.value, |rows| - Start(|rows|, skip))
    ensures take.None? || take.value == 0 ==> |r| == |rows| - Start(|rows|, skip)
  {
    var rest := rows[Start(|rows|, skip)..];
    if take.Some? && 0 < take.value < |rest| then rest[..take.value] else rest
  }

  function Min(a: nat, b: nat): nat {
    if a <= b then a else b
  }

  /** `skip`/`take` are applied only when the options exist. */
  function ApplyPage<T>(rows: seq<T>, page: Option<PageOpts>): (r: seq<T>)
    ensures page.None? ==> r == rows
    ensures page.Some? ==> r == Paginate(rows, page.value.skip, page.value.take)
  {
    if page.None? then rows else Paginate(rows, page.value.skip, page.value.take)
  }

  /** Consecutive pages tile the rows: a page followed by everything after it
      is everything from the page's start. */
  lemma {:induction false} ConsecutivePages<T>(rows: seq<T>, skip: nat, take: nat)
    requires take > 0
    ensures Paginate(rows, Some(skip), Some(take)) + Paginate(rows, Some(skip + take), None)
            == Paginate(rows, Some(skip), None)
  {
    var a := Paginate(rows, Some(skip), Some(take));
    var b := Paginate(rows, Some(skip + take), None);
    var c := Paginate(rows, Some(skip), None);
    assert |a + b| == |c|;
    forall i | 0 <= i < |c| ensures (a + b)[i] == c[i] {
      if i >= |a| {
        assert (a + b)[i] == b[i - |a|];
      }
    }
  }

  /** A requested page size of at least one row yields at most `MaxTake` rows. */
  lemma PageBounded<T>(rows: seq<T>, opts: RawPage)
    requires opts.take.Some? && AtLeast(opts.take.value, 1.0)
    ensures |ApplyPage(rows, NormalizePage(Some(opts)))| <= MaxTake
  {
  }

  /** The radius `findNearby` uses when none is given. */
  const DefaultRadiusKm: real := 50.0
  const MinRadiusKm: real := 1.0
  const MaxRadiusKm: real := 500.0

  /** `Math.max(1, Math.min(radiusKm ?? 50, 500))`; the radius arrives
      through `ParseFloatPipe`, so it is a finite number or absent. */
  function ClampRadius(radiusKm: Option<real>): (r: real)
    ensures MinRadiusKm <= r <= MaxRadiusKm
    ensures radiusKm.None? ==> r == DefaultRadiusKm
    ensures radiusKm.Some? && MinRadiusKm <= radiusKm.value <= MaxRadiusKm ==> r == radiusKm.value
    ensures radiusKm.Some? && radiusKm.value < MinRadiusKm ==> r == MinRadiusKm
    ensures radiusKm.Some? && radiusKm.value > MaxRadiusKm ==> r == MaxRadiusKm
  {
    var given := if radiusKm.Some? then radiusKm.value else DefaultRadiusKm;
    var capped := if given < MaxRadiusKm then given else MaxRadiusKm;
    if MinRadiusKm > capped then MinRadiusKm else capped
  }

  /** Clamping a clamped radius changes nothing. */
  lemma ClampRadiusIdempotent(radiusKm: Option<real>)
    ensures ClampRadius(Some(ClampRadius(radiusKm))) == ClampRadius(radiusKm)
  {
  }
}
