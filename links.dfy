/**
 * The link registry as values: the list of links (newest first) and what each
 * handler of the shortener makes of it.
 */
module Links {
  import opened Wrappers
  import opened Text
  import opened Codes
  import opened Expiry

  /** One shortened link: `id` and `createdAt` both come from the clock at creation. */
  datatype Link = Link(id: int, long: string, code: string, clicks: nat, createdAt: int)

  /** The four alerts the handlers can raise. */
  datatype Error = EmptyInput | InvalidUrl | CodeTaken | NotFound

  // ----- Array.prototype.filter and Array.prototype.some -----

  /** The elements `keep` accepts, in their original order. */
  function Filter<T(!new)>(s: seq<T>, keep: T -> bool): (r: seq<T>)
    ensures |r| <= |s|
    ensures forall x :: x in r <==> x in s && keep(x)
  {
    if s == [] then [] else (if keep(s[0]) then [s[0]] else []) + Filter(s[1..], keep)
  }

  /** Filtering works element by element: it distributes over concatenation, so it keeps order. */
  lemma {:induction false} FilterConcat<T(!new)>(a: seq<T>, b: seq<T>, keep: T -> bool)
    ensures Filter(a + b, keep) == Filter(a, keep) + Filter(b, keep)
  {
    if a == [] {
      assert a + b == b;
    } else {
      assert (a + b)[1..] == a[1..] + b;
      FilterConcat(a[1..], b, keep);
    }
  }

  /** A filter that accepts every element returns the sequence unchanged. */
  lemma {:induction false} FilterKeepsAll<T(!new)>(s: seq<T>, keep: T -> bool)
    requires forall i :: 0 <= i < |s| ==> keep(s[i])
    ensures Filter(s, keep) == s
  {
    if s != [] {
      FilterKeepsAll(s[1..], keep);
    }
  }

  /** Filtering by a stricter test after a looser one is filtering by the stricter one alone. */
  lemma {:induction false} FilterNarrowing<T(!new)>(s: seq<T>, loose: T -> bool, strict: T -> bool)
    requires forall x :: x in s && strict(x) ==> loose(x)
    ensures Filter(Filter(s, loose), strict) == Filter(s, strict)
  {
    if s != [] {
      var head := if loose(s[0]) then [s[0]] else [];
      FilterConcat(head, Filter(s[1..], loose), strict);
      FilterNarrowing(s[1..], loose, strict);
    }
  }

  /** A relation between every earlier and every later element survives filtering. */
  lemma {:induction false} FilterKeepsPairwise<T(!new)>(s: seq<T>, keep: T -> bool, rel: (T, T) -> bool)
    requires forall i, j :: 0 <= i < j < |s| ==> rel(s[i], s[j])
    ensures forall i, j :: 0 <= i < j < |Filter(s, keep)| ==> rel(Filter(s, keep)[i], Filter(s, keep)[j])
  {
    if s != [] {
      var rest := Filter(s[1..], keep);
      FilterKeepsPairwise(s[1..], keep, rel);
      if keep(s[0]) {
        var r := Filter(s, keep);
        assert r == [s[0]] + rest;
        forall i, j | 0 <= i < j < |r|
          ensures rel(r[i], r[j])
        {
          if i == 0 {
            assert r[j] in s[1..];
            var k :| 0 <= k < |s[1..]| && s[1..][k] == r[j];
            assert rel(s[0], s[k + 1]);
          } else {
            assert r[i] == rest[i - 1] && r[j] == rest[j - 1];
          }
        }
      }
    }
  }

  /** Array.prototype.some: whether any element passes `p`. */
  function Any<T>(s: seq<T>, p: T -> bool): (b: bool)
    ensures b <==> exists i :: 0 <= i < |s| && p(s[i])
  {
    if s == [] then false
    else p(s[0]) || (assert forall i :: 0 <= i < |s[1..]| ==> s[1..][i] == s[i + 1]; Any(s[1..], p))
  }

  // ----- expiry over the list: the periodic prune and the active view -----

  function Live(now: int): Link -> bool {
    (l: Link) => !IsExpired(l.createdAt, now)
  }

  /**
   * The links not expired at `now`, newest first: what the minute timer keeps and
   * what the list shows.
   */
  function Active(s: seq<Link>, now: int): (r: seq<Link>)
    ensures |r| <= |s|
    ensures forall l :: l in r <==> l in s && !IsExpired(l.createdAt, now)
  {
    Filter(s, Live(now))
  }

  /** Pruning twice at the same instant is pruning once. */
  lemma ActiveIdempotent(s: seq<Link>, now: int)
    ensures Active(Active(s, now), now) == Active(s, now)
  {
    FilterNarrowing(s, Live(now), Live(now));
  }

  /** Pruning earlier does not change what a later view shows. */
  lemma ActiveLater(s: seq<Link>, t1: int, t2: int)
    requires t1 <= t2
    ensures Active(Active(s, t1), t2) == Active(s, t2)
  {
    FilterNarrowing(s, Live(t1), Live(t2));
  }

  /** The view keeps order: it can be taken piece by piece. */
  lemma ActiveConcat(a: seq<Link>, b: seq<Link>, now: int)
    ensures Active(a + b, now) == Active(a, now) + Active(b, now)
  {
    FilterConcat(a, b, Live(now));
  }

  /** When nothing has expired the prune changes nothing. */
  lemma ActiveAllLive(s: seq<Link>, now: int)
    requires forall i :: 0 <= i < |s| ==> !IsExpired(s[i].createdAt, now)
    ensures Active(s, now) == s
  {
    FilterKeepsAll(s, Live(now));
  }

  // ----- deleteUrl -----

  function OtherId(id: int): Link -> bool {
    (l: Link) => l.id != id
  }

  /** The list after deleting by id: every link with that id is gone, the rest stay in order. */
  function Without(s: seq<Link>, id: int): (r: seq<Link>)
    ensures |r| <= |s|
    ensures forall l :: l in r <==> l in s && l.id != id
  {
    Filter(s, OtherId(id))
  }

  /** Deleting an id nobody has changes nothing. */
  lemma WithoutAbsent(s: seq<Link>, id: int)
    requires forall i :: 0 <= i < |s| ==> s[i].id != id
    ensures Without(s, id) == s
  {
    FilterKeepsAll(s, OtherId(id));
  }

  /** Deleting twice is deleting once. */
  lemma WithoutIdempotent(s: seq<Link>, id: int)
    ensures Without(Without(s, id), id) == Without(s, id)
  {
    FilterNarrowing(s, OtherId(id), OtherId(id));
  }

  /** Deleting keeps order: it can be taken piece by piece. */
  lemma WithoutConcat(a: seq<Link>, b: seq<Link>, id: int)
    ensures Without(a + b, id) == Without(a, id) + Without(b, id)
  {
    FilterConcat(a, b, OtherId(id));
  }

  // ----- createShortUrl -----

  /** Whether a link that is still active already holds `code`. */
  function Taken(s: seq<Link>, code: string, now: int): (r: bool)
    ensures r <==> exists i :: 0 <= i < |s| && s[i].code == code && !IsExpired(s[i].createdAt, now)
  {
    Any(s, (l: Link) => l.code == code && !IsExpired(l.createdAt, now))
  }

  /**
   * createShortUrl on the list `s`, with the form's two fields, the two random draws,
   * the clock and the URL parser passed in. A success only ever adds one link in front.
   */
  function Create(s: seq<Link>, input: string, custom: string, word: nat, num: nat, now: int,
                  parses: string -> bool): (r: Result<seq<Link>, Error>)
    requires word < |Words| && 1 <= num <= 99
    ensures r.Success? ==> |r.value| == |s| + 1 && r.value[1..] == s
    ensures r.Failure? ==> r.error != NotFound
  {
    if Trim(input) == [] then Failure(EmptyInput)
    else if !IsValidUrl(input, parses) then Failure(InvalidUrl)
    else
      var code := ChosenCode(custom, word, num);
      if Taken(s, code, now) then Failure(CodeTaken)
      else Success([Link(now, WithScheme(input), code, 0, now)] + s)
  }

  /**
   * What creating does: blank input, an address the parser rejects and a code an active
   * link holds are refused (the list is then unchanged, since nothing is returned);
   * otherwise a new link with no clicks, created now, goes in front of the list.
   */
  lemma CreateOutcome(s: seq<Link>, input: string, custom: string, word: nat, num: nat, now: int,
                      parses: string -> bool)
    requires word < |Words| && 1 <= num <= 99
    ensures var r := Create(s, input, custom, word, num, now, parses);
      && (r == Failure(EmptyInput) <==> AllWhitespace(input))
      && (r == Failure(InvalidUrl) <==> !AllWhitespace(input) && !parses(WithScheme(input)))
      && (r == Failure(CodeTaken) <==>
           && !AllWhitespace(input) && parses(WithScheme(input))
           && exists i :: 0 <= i < |s| && s[i].code == ChosenCode(custom, word, num) && !IsExpired(s[i].createdAt, now))
      && (r.Success? ==>
           && r.value[0].clicks == 0 && r.value[0].createdAt == now && r.value[0].id == now
           && r.value[0].code == ChosenCode(custom, word, num) && r.value[0].long == WithScheme(input))
  {
  }

  /**
   * The code of a created link is a cleaned custom code, used as typed, or, when the
   * field is empty, a generated code made of the two draws.
   */
  lemma CreatedCode(s: seq<Link>, input: string, custom: string, word: nat, num: nat, now: int,
                    parses: string -> bool)
    requires word < |Words| && 1 <= num <= 99
    requires IsCodeText(custom)
    ensures var r := Create(s, input, custom, word, num, now, parses);
      r.Success? ==>
        && IsCodeText(r.value[0].code) && r.value[0].code != []
        && (custom != [] ==> r.value[0].code == custom)
        && (custom == [] ==> ParseGenerated(r.value[0].code) == Some((word, num)))
  {
    CreateOutcome(s, input, custom, word, num, now, parses);
  }

  /**
   * An expired link does not block its code: only active links are checked, so with
   * a valid address the new link is created whatever expired links hold the code.
   */
  lemma ExpiredCodeReusable(s: seq<Link>, input: string, custom: string, word: nat, num: nat, now: int,
                            parses: string -> bool)
    requires word < |Words| && 1 <= num <= 99
    requires !AllWhitespace(input) && parses(WithScheme(input))
    requires forall i :: 0 <= i < |s| && s[i].code == ChosenCode(custom, word, num) ==> IsExpired(s[i].createdAt, now)
    ensures Create(s, input, custom, word, num, now, parses)
         == Success([Link(now, WithScheme(input), ChosenCode(custom, word, num), 0, now)] + s)
  {
    CreateOutcome(s, input, custom, word, num, now, parses);
  }

  // ----- handleRedirect -----

  /** Array.prototype.find by code, as a position: the first link holding `code`. */
  function FirstWithCode(s: seq<Link>, code: string): (r: Option<nat>)
    ensures r.None? <==> forall i :: 0 <= i < |s| ==> s[i].code != code
    ensures r.Some? ==>
      r.value < |s| && s[r.value].code == code && forall j :: 0 <= j < r.value ==> s[j].code != code
  {
    if s == [] then None
    else if s[0].code == code then Some(0)
    else match FirstWithCode(s[1..], code)
      case None => None
      case Some(k) => Some(k + 1)
  }

  /**
   * The position of the link a redirect to `code` follows: the first link with that
   * code, provided it has not expired.
   */
  function Resolve(s: seq<Link>, code: string, now: int): (r: Result<nat, Error>)
    ensures r.Success? ==>
      && r.value < |s| && s[r.value].code == code && !IsExpired(s[r.value].createdAt, now)
      && forall j :: 0 <= j < r.value ==> s[j].code != code
    ensures r.Failure? <==>
      forall k :: 0 <= k < |s| && s[k].code == code && (forall j :: 0 <= j < k ==> s[j].code != code)
        ==> IsExpired(s[k].createdAt, now)
    ensures r.Failure? ==> r.error == NotFound
  {
    match FirstWithCode(s, code)
    case None => Failure(NotFound)
    case Some(k) => if IsExpired(s[k].createdAt, now) then Failure(NotFound) else Success(k)
  }

  /** One more click on a link; its id, address, code and creation time stay. */
  function Clicked(l: Link): (r: Link)
    ensures r.clicks == l.clicks + 1
    ensures r.id == l.id && r.long == l.long && r.code == l.code && r.createdAt == l.createdAt
  {
    l.(clicks := l.clicks + 1)
  }

  /** The `map` of handleRedirect: one more click on every link whose id is `id`. */
  function AddClick(s: seq<Link>, id: int): (r: seq<Link>)
    ensures |r| == |s|
    ensures forall i :: 0 <= i < |s| ==> r[i] == if s[i].id == id then Clicked(s[i]) else s[i]
  {
    if s == [] then [] else [if s[0].id == id then Clicked(s[0]) else s[0]] + AddClick(s[1..], id)
  }

  /**
   * handleRedirect on the list: NotFound with the list unchanged, or every link
   * sharing the resolved link's id gains one click, all else equal and in order.
   */
  function Redirect(s: seq<Link>, code: string, now: int): (r: Result<seq<Link>, Error>)
    ensures r.Failure? <==> Resolve(s, code, now).Failure?
    ensures r.Failure? ==> r.error == NotFound
    ensures r.Success? ==>
      var id := s[Resolve(s, code, now).value].id;
      |r.value| == |s| &&
      forall i :: 0 <= i < |s| ==>
        r.value[i] == if s[i].id == id then s[i].(clicks := s[i].clicks + 1) else s[i]
  {
    match Resolve(s, code, now)
    case Failure(e) => Failure(e)
    case Success(k) => Success(AddClick(s, s[k].id))
  }

  /** With unique ids, a redirect adds exactly one click, to the resolved link alone. */
  lemma RedirectOneClick(s: seq<Link>, code: string, now: int)
    requires forall i, j :: 0 <= i < j < |s| ==> s[i].id != s[j].id
    requires Resolve(s, code, now).Success?
    ensures var k := Resolve(s, code, now).value; var t := Redirect(s, code, now).value;
      t[k].clicks == s[k].clicks + 1 && forall i :: 0 <= i < |s| && i != k ==> t[i] == s[i]
  {
    var k := Resolve(s, code, now).value;
    var t := Redirect(s, code, now).value;
    forall i | 0 <= i < |s| && i != k
      ensures t[i] == s[i]
    {
      assert s[i].id != s[k].id;
    }
  }

  // ----- the registry's invariants -----

  /** Newest first: creation times never increase along the list. */
  predicate NewestFirst(s: seq<Link>) {
    forall i, j :: 0 <= i < j < |s| ==> s[j].createdAt <= s[i].createdAt
  }

  /** At most one active link per code at `now`. */
  predicate UniqueLive(s: seq<Link>, now: int) {
    forall i, j :: 0 <= i < j < |s| && s[i].code == s[j].code ==>
      IsExpired(s[i].createdAt, now) || IsExpired(s[j].createdAt, now)
  }

  /** No link was created after `now`. */
  predicate NotAfter(s: seq<Link>, now: int) {
    forall i :: 0 <= i < |s| ==> s[i].createdAt <= now
  }

  predicate Consistent(s: seq<Link>, now: int) {
    NewestFirst(s) && UniqueLive(s, now) && NotAfter(s, now)
  }

  /** Time passing keeps the invariants: expiry only ever removes links from the active set. */
  lemma ConsistentLater(s: seq<Link>, t1: int, t2: int)
    requires t1 <= t2 && Consistent(s, t1)
    ensures Consistent(s, t2)
  {
    forall i, j | 0 <= i < j < |s| && s[i].code == s[j].code
      ensures IsExpired(s[i].createdAt, t2) || IsExpired(s[j].createdAt, t2)
    {
      assert IsExpired(s[i].createdAt, t1) || IsExpired(s[j].createdAt, t1);
    }
  }

  /**
   * In a newest-first list the first link with a code is the youngest one, so a redirect
   * succeeds exactly when some link with the code is still active.
   */
  lemma ResolveFindsLive(s: seq<Link>, code: string, now: int)
    requires NewestFirst(s)
    ensures Resolve(s, code, now).Success? <==>
      exists i :: 0 <= i < |s| && s[i].code == code && !IsExpired(s[i].createdAt, now)
  {
    if i :| 0 <= i < |s| && s[i].code == code && !IsExpired(s[i].createdAt, now) {
      var k := FirstWithCode(s, code).value;
      assert k <= i;
      assert s[i].createdAt <= s[k].createdAt;
    }
  }

  /** With at most one active link per code, the link a redirect follows is that link. */
  lemma ResolveIsTheLiveLink(s: seq<Link>, code: string, now: int)
    requires UniqueLive(s, now)
    requires Resolve(s, code, now).Success?
    ensures forall i :: 0 <= i < |s| && s[i].code == code && !IsExpired(s[i].createdAt, now) ==>
      i == Resolve(s, code, now).value
  {
  }

  /** Putting a fresh link in front keeps the invariants when its code is free at `now`. */
  lemma PrependKeepsConsistent(link: Link, s: seq<Link>, now: int)
    requires Consistent(s, now) && link.createdAt == now
    requires forall i :: 0 <= i < |s| && s[i].code == link.code ==> IsExpired(s[i].createdAt, now)
    ensures Consistent([link] + s, now)
  {
    var t := [link] + s;
    forall i, j | 0 <= i < j < |t| && t[i].code == t[j].code
      ensures IsExpired(t[i].createdAt, now) || IsExpired(t[j].createdAt, now)
    {
      assert t[j] == s[j - 1];
      if i > 0 {
        assert t[i] == s[i - 1];
      }
    }
    forall i, j | 0 <= i < j < |t|
      ensures t[j].createdAt <= t[i].createdAt
    {
      assert t[j] == s[j - 1];
      if i > 0 {
        assert t[i] == s[i - 1];
      }
    }
  }

  /** Creating keeps the invariants when the clock has not gone back. */
  lemma CreateKeepsConsistent(s: seq<Link>, input: string, custom: string, word: nat, num: nat, now: int,
                              parses: string -> bool)
    requires word < |Words| && 1 <= num <= 99
    requires Consistent(s, now)
    ensures var r := Create(s, input, custom, word, num, now, parses);
      r.Success? ==> Consistent(r.value, now)
  {
    var r := Create(s, input, custom, word, num, now, parses);
    if r.Success? {
      CreateOutcome(s, input, custom, word, num, now, parses);
      var t := r.value;
      assert t == [t[0]] + s;
      PrependKeepsConsistent(t[0], s, now);
    }
  }

  /**
   * Following a link keeps the invariants, and it never lowers a click count or
   * touches any other field.
   */
  lemma RedirectKeepsConsistent(s: seq<Link>, code: string, now: int)
    requires Consistent(s, now)
    requires Redirect(s, code, now).Success?
    ensures var t := Redirect(s, code, now).value;
      Consistent(t, now) &&
      forall i :: 0 <= i < |s| ==> t[i].clicks >= s[i].clicks && t[i].(clicks := s[i].clicks) == s[i]
  {
    var t := Redirect(s, code, now).value;
    assert forall i :: 0 <= i < |s| ==> t[i].code == s[i].code && t[i].createdAt == s[i].createdAt;
  }

  /** Deleting keeps the invariants. */
  lemma WithoutKeepsConsistent(s: seq<Link>, id: int, now: int)
    requires Consistent(s, now)
    ensures Consistent(Without(s, id), now)
  {
    FilterKeepsPairwise(s, OtherId(id), (a: Link, b: Link) => b.createdAt <= a.createdAt);
    FilterKeepsPairwise(s, OtherId(id),
      (a: Link, b: Link) => a.code == b.code ==> IsExpired(a.createdAt, now) || IsExpired(b.createdAt, now));
    var t := Without(s, id);
    forall i | 0 <= i < |t| ensures t[i].createdAt <= now {
      assert t[i] in s;
    }
  }

  /** Pruning keeps the invariants; afterwards no two links share a code. */
  lemma ActiveKeepsConsistent(s: seq<Link>, now: int)
    requires Consistent(s, now)
    ensures Consistent(Active(s, now), now)
    ensures forall i, j :: 0 <= i < j < |Active(s, now)| ==> Active(s, now)[i].code != Active(s, now)[j].code
  {
    FilterKeepsPairwise(s, Live(now), (a: Link, b: Link) => b.createdAt <= a.createdAt);
    FilterKeepsPairwise(s, Live(now),
      (a: Link, b: Link) => a.code == b.code ==> IsExpired(a.createdAt, now) || IsExpired(b.createdAt, now));
    var t := Active(s, now);
    forall i | 0 <= i < |t| ensures t[i].createdAt <= now && !IsExpired(t[i].createdAt, now) {
      assert t[i] in s;
    }
  }
}
