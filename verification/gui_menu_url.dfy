/** The pop-up menu offered for a URL clicked in a text view: the URL is
    completed with its scheme when it starts "www." or "ftp.", its scheme
    picks the commands on offer, and a URL of any other scheme gets no
    menu. */
module GuiMenuUrl {
  import opened Common

  /** `p` is a prefix of `s` (strncmp(s, p, |p|) == 0). */
  predicate StartsWith(s: string, p: string) {
    |p| <= |s| && s[..|p|] == p
  }

  /** One entry of a menu table: its title (with the mnemonic underscore)
      and the command run with the URL as $0. */
  datatype MenuItem = MenuItem(title: string, command: string)

  const HttpItems: seq<MenuItem> := [
    MenuItem("Open with _Galeon", "exec - -nosh galeon $0"),
    MenuItem("Open with _Mozilla", "exec - -nosh mozilla $0")
  ]

  const FtpItems: seq<MenuItem> := [
    MenuItem("Open with _Galeon", "exec - -nosh galeon $0"),
    MenuItem("Open with _lftp", "exec - -nosh xterm -e lftp $0")
  ]

  const MailItems: seq<MenuItem> := [
    MenuItem("Send mail with _mutt", "exec - -nosh xterm -e mutt $0")
  ]

  const IrcItems: seq<MenuItem> := [
    MenuItem("Connect", "connect $0")
  ]

  /** The URL schemes that have a menu. */
  datatype Scheme = Http | Ftp | Mail | Irc

  /** The URL with "http://" put in front of a "www." host and "ftp://" in
      front of an "ftp." host; any other URL as it is. */
  function FixUrl(url: string): (fixed: string)
    ensures StartsWith(url, "www.") ==> fixed == "http://" + url
    ensures !StartsWith(url, "www.") && StartsWith(url, "ftp.") ==> fixed == "ftp://" + url
    ensures !StartsWith(url, "www.") && !StartsWith(url, "ftp.") ==> fixed == url
  {
    if StartsWith(url, "www.") then "http://" + url
    else if StartsWith(url, "ftp.") then "ftp://" + url
    else url
  }

  /** A string starting with `p` starts with the first character of `p`. */
  lemma PrefixFirst(s: string, p: string)
    requires p != []
    ensures StartsWith(s, p) ==> s != [] && s[0] == p[0]
  {
    if StartsWith(s, p) {
      assert s[..|p|][0] == p[0];
    }
  }

  /** The scheme of a URL, checked as "http://", "ftp://", "mailto:" and
      "irc://" in that order; None for any other URL. */
  function Classify(url: string): (scheme: Option<Scheme>)
    ensures scheme == Some(Http) <==> StartsWith(url, "http://")
    ensures scheme == Some(Ftp) <==> StartsWith(url, "ftp://")
    ensures scheme == Some(Mail) <==> StartsWith(url, "mailto:")
    ensures scheme == Some(Irc) <==> StartsWith(url, "irc://")
  {
    PrefixFirst(url, "http://");
    PrefixFirst(url, "ftp://");
    PrefixFirst(url, "mailto:");
    PrefixFirst(url, "irc://");
    if StartsWith(url, "http://") then Some(Http)
    else if StartsWith(url, "ftp://") then Some(Ftp)
    else if StartsWith(url, "mailto:") then Some(Mail)
    else if StartsWith(url, "irc://") then Some(Irc)
    else None
  }

  /** A command that ends in the URL argument " $0". */
  predicate TakesUrl(command: string) {
    |command| >= 3 && command[|command| - 3..] == " $0"
  }

  /** The menu table of a scheme. */
  function ItemsFor(scheme: Scheme): (items: seq<MenuItem>)
    ensures scheme == Http || scheme == Ftp ==> |items| == 2
    ensures scheme == Mail || scheme == Irc ==> |items| == 1
    ensures forall i :: 0 <= i < |items| ==> TakesUrl(items[i].command)
  {
    match scheme
    case Http => HttpItems
    case Ftp => FtpItems
    case Mail => MailItems
    case Irc => IrcItems
  }

  /** A menu that pops up: the URL stored with it and its items. */
  datatype UrlMenu = UrlMenu(url: string, items: seq<MenuItem>)

  /** gui_menu_url_popup without the widgets: no menu for a missing URL or
      an unknown scheme; otherwise the menu for the completed URL's scheme,
      holding a copy of the completed URL. */
  function UrlPopup(url: Option<string>): (menu: Option<UrlMenu>)
    ensures url.None? ==> menu.None?
    ensures url.Some? ==> (menu.None? <==> Classify(FixUrl(url.value)).None?)
    ensures menu.Some? ==> menu.value.url == FixUrl(url.value)
                           && menu.value.items == ItemsFor(Classify(FixUrl(url.value)).value)
                           && 1 <= |menu.value.items| <= 2
  {
    if url.None? then None
    else
      var fixed := FixUrl(url.value);
      match Classify(fixed)
      case None => None
      case Some(scheme) => Some(UrlMenu(fixed, ItemsFor(scheme)))
  }

  /** The original URL is always the tail of the stored one, and what was
      put in front of it is exactly the scheme added. */
  lemma FixUrlKeepsUrl(url: string)
    ensures |FixUrl(url)| >= |url|
    ensures FixUrl(url)[|FixUrl(url)| - |url|..] == url
    ensures FixUrl(url)[..|FixUrl(url)| - |url|] ==
              if StartsWith(url, "www.") then "http://"
              else if StartsWith(url, "ftp.") then "ftp://"
              else ""
  {
    var f := FixUrl(url);
    var p := f[..|f| - |url|];
    assert f == p + url;
  }

  /** Completing a URL twice changes nothing more. */
  lemma FixUrlIdempotent(url: string)
    ensures FixUrl(FixUrl(url)) == FixUrl(url)
  {
    var f := FixUrl(url);
    if f != url {
      assert f[0] == 'h' || f[0] == 'f';
      assert f[..4] != "www.";
      assert f[..4] != "ftp." by {
        assert f[3] == 'p' || f[3] == ':';
      }
    }
  }

  /** A "www." URL always gets the web menu, stored with "http://" in
      front. */
  lemma WwwIsHttp(url: string)
    requires StartsWith(url, "www.")
    ensures UrlPopup(Some(url)) == Some(UrlMenu("http://" + url, HttpItems))
  {
    assert ("http://" + url)[..7] == "http://";
  }

  /** An "ftp." URL always gets the FTP menu, stored with "ftp://" in
      front. */
  lemma FtpHostIsFtp(url: string)
    requires StartsWith(url, "ftp.")
    ensures UrlPopup(Some(url)) == Some(UrlMenu("ftp://" + url, FtpItems))
  {
    assert url[..4] == "ftp.";
    assert !StartsWith(url, "www.") by {
      assert url[0] == 'f';
    }
    var f := "ftp://" + url;
    assert f[..6] == "ftp://";
    assert !StartsWith(f, "http://") by {
      assert f[0] == 'f';
    }
  }
}
