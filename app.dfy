/**
 * The shortener component's state and handlers: the list of links plus the two
 * form fields, changed in place by the event handlers.
 */
module App {
  import opened Wrappers
  import opened Text
  import opened Codes
  import opened Expiry
  import opened Links

  class Shortener {
    /** The links, newest first. */
    var urls: seq<Link>
    /** The address field. */
    var longUrl: string
    /** The custom-name field, cleaned on every keystroke. */
    var customCode: string

    /** The custom-name field only ever holds a-z and 0-9. */
    ghost predicate Valid()
      reads this
    {
      IsCodeText(customCode)
    }

    /** The initial state: no links and empty fields. */
    constructor ()
      ensures Valid()
      ensures urls == [] && longUrl == [] && customCode == []
    {
      urls := [];
      longUrl := [];
      customCode := [];
    }

    /** Typing in the address field stores the text as typed. */
    method SetLongUrl(text: string)
      requires Valid()
      modifies this
      ensures Valid()
      ensures longUrl == text
      ensures urls == old(urls) && customCode == old(customCode)
    {
      longUrl := text;
    }

    /** Typing in the custom-name field stores the text lower-cased with everything but a-z0-9 dropped. */
    method SetCustomCode(text: string)
      modifies this
      ensures Valid()
      ensures customCode == CleanCode(text)
      ensures urls == old(urls) && longUrl == old(longUrl)
    {
      customCode := CleanCode(text);
    }

    /**
     * createShortUrl, with Math.random's draws, the clock and the URL parser passed in.
     * On failure nothing changes; on success the new link heads the list and both
     * fields are cleared.
     */
    method CreateShortUrl(word: nat, num: nat, now: int, parses: string -> bool) returns (res: Result<Link, Error>)
      requires Valid()
      requires word < |Words| && 1 <= num <= 99
      modifies this
      ensures Valid()
      ensures res.Failure? ==>
        && Create(old(urls), old(longUrl), old(customCode), word, num, now, parses) == Failure(res.error)
        && urls == old(urls) && longUrl == old(longUrl) && customCode == old(customCode)
      ensures res.Success? ==>
        && Create(old(urls), old(longUrl), old(customCode), word, num, now, parses) == Success(urls)
        && urls == [res.value] + old(urls)
        && longUrl == [] && customCode == []
    {
      var links, input, custom := urls, longUrl, customCode;
      if Trim(input) == [] {
        assert Create(links, input, custom, word, num, now, parses) == Failure(EmptyInput);
        return Failure(EmptyInput);
      }
      if !IsValidUrl(input, parses) {
        assert Create(links, input, custom, word, num, now, parses) == Failure(InvalidUrl);
        return Failure(InvalidUrl);
      }
      var fullUrl := WithScheme(input);
      var code := ChosenCode(custom, word, num);
      if Taken(links, code, now) {
        assert Create(links, input, custom, word, num, now, parses) == Failure(CodeTaken);
        return Failure(CodeTaken);
      }
      var link := Link(now, fullUrl, code, 0, now);
      assert Create(links, input, custom, word, num, now, parses) == Success([link] + links);
      urls, longUrl, customCode := [link] + links, [], [];
      return Success(link);
    }

    /**
     * handleRedirect: finds the first link with `code`; if it is missing or expired the
     * state is unchanged, otherwise every link with its id gains a click. The link
     * returned is the one found, whose address the browser is then sent to.
     */
    method HandleRedirect(code: string, now: int) returns (res: Result<Link, Error>)
      requires Valid()
      modifies this
      ensures Valid()
      ensures longUrl == old(longUrl) && customCode == old(customCode)
      ensures res.Failure? ==> res.error == NotFound && urls == old(urls)
      ensures res.Failure? <==> Redirect(old(urls), code, now).Failure?
      ensures res.Success? ==>
        && Redirect(old(urls), code, now) == Success(urls)
        && res.value == old(urls)[Resolve(old(urls), code, now).value]
        && res.value.code == code && !IsExpired(res.value.createdAt, now)
    {
      var found := FirstWithCode(urls, code);
      if found.None? || IsExpired(urls[found.value].createdAt, now) {
        return Failure(NotFound);
      }
      var url := urls[found.value];
      urls := AddClick(urls, url.id);
      return Success(url);
    }

    /** deleteUrl once confirmed: drops every link with `id`, the rest stay in order. */
    method DeleteUrl(id: int)
      requires Valid()
      modifies this
      ensures Valid()
      ensures urls == Without(old(urls), id)
      ensures longUrl == old(longUrl) && customCode == old(customCode)
    {
      urls := Without(urls, id);
    }

    /** The minute timer's callback: drops the expired links. */
    method PruneExpired(now: int)
      requires Valid()
      modifies this
      ensures Valid()
      ensures urls == Active(old(urls), now)
      ensures longUrl == old(longUrl) && customCode == old(customCode)
    {
      urls := Active(urls, now);
    }

    /** activeUrls: the links the page lists, those not expired at `now`, newest first. */
    function ActiveUrls(now: int): (r: seq<Link>)
      reads this
      ensures forall l :: l in r <==> l in urls && !IsExpired(l.createdAt, now)
    {
      Active(urls, now)
    }
  }
}
