/**
 The small rendering decisions of the site header that sit next to the
 read-tracker: which status fields it reads, the main navigation list, where
 each navigation link points, what the user area shows, the mode tag, and
 which notice tab and badge the unread count selects.
 */
module HeaderBar {
  import opened Js
  import opened Seqs
  import ReadTracker

  /** The status record the status provider supplies to the header. */
  datatype Status = Status(
    announcements: Option<seq<ReadTracker.Announcement>>,
    docsLink: Option<string>,
    selfUseModeEnabled: Option<bool>,
    demoSiteEnabled: Option<bool>)

  /** The current announcements; none when the status or the field is absent. */
  function Announcements(status: Option<Status>): (anns: seq<ReadTracker.Announcement>)
    ensures status.None? || status.value.announcements.None? ==> anns == []
    ensures status.Some? && status.value.announcements.Some? ==> anns == status.value.announcements.value
  {
    if status.Some? then status.value.announcements.GetOr([]) else []
  }

  /** The configured docs link; empty when the status or the field is absent. */
  function DocsLink(status: Option<Status>): (link: string)
    ensures link != "" <==> status.Some? && status.value.docsLink.Some? && status.value.docsLink.value != ""
    ensures link != "" ==> link == status.value.docsLink.value
  {
    if status.Some? then status.value.docsLink.GetOr("") else ""
  }

  /** Whether self-use mode is on; off when the status or the flag is absent. */
  function SelfUseMode(status: Option<Status>): (on: bool)
    ensures on <==> status.Some? && status.value.selfUseModeEnabled == Some(true)
  {
    status.Some? && status.value.selfUseModeEnabled.GetOr(false)
  }

  /** Whether demo-site mode is on; off when the status or the flag is absent. */
  function DemoSiteMode(status: Option<Status>): (on: bool)
    ensures on <==> status.Some? && status.value.demoSiteEnabled == Some(true)
  {
    status.Some? && status.value.demoSiteEnabled.GetOr(false)
  }

  // ---------------------------------------------------------------------
  // Navigation

  /** A navigation entry: a router link to a path, or an external link. */
  datatype NavLink =
    | Internal(itemKey: string, to: string)
    | External(itemKey: string, href: string)

  /** The fixed entries of the main navigation. */
  const Home := Internal("home", "/")
  const Console := Internal("console", "/console")
  const Pricing := Internal("pricing", "/pricing")
  const Docs := Internal("docs", "/docs")
  const Contact := Internal("contact", "/contact")

  /** Path the console link is redirected to when no user is signed in. */
  const LoginPath: string := "/login"

  /** `mainNavLinks`: the docs entry appears only when a docs link is configured. */
  function MainNavLinks(docsLink: string): (links: seq<NavLink>)
    ensures |links| == if docsLink == "" then 4 else 5
    ensures forall i :: 0 <= i < |links| ==> links[i].Internal?
    ensures Docs in links <==> docsLink != ""
    ensures links[0] == Home && links[1] == Console && links[2] == Pricing
    ensures links[|links| - 1] == Contact
  {
    [Home, Console, Pricing] + (if docsLink != "" then [Docs] else []) + [Contact]
  }

  /** The keys of a list of links, in order. */
  function ItemKeys(links: seq<NavLink>): (keys: seq<string>)
    ensures |keys| == |links|
    ensures forall i :: 0 <= i < |links| ==> keys[i] == links[i].itemKey
  {
    seq(|links|, i requires 0 <= i < |links| => links[i].itemKey)
  }

  /**
   A configured docs link inserts exactly the docs entry between pricing and
   contact; nothing else about the list depends on it.
   */
  lemma DocsEntryIsTheOnlyDifference(docsLink: string)
    ensures docsLink == "" ==> MainNavLinks(docsLink) == [Home, Console, Pricing, Contact]
    ensures docsLink != "" ==>
              MainNavLinks(docsLink) == MainNavLinks("")[..3] + [Docs] + MainNavLinks("")[3..]
  {
  }

  /** Every entry of the main navigation has its own key. */
  lemma MainNavKeysDistinct(docsLink: string)
    ensures NoDuplicates(ItemKeys(MainNavLinks(docsLink)))
  {
    var keys := ItemKeys(MainNavLinks(docsLink));
    if docsLink == "" {
      assert keys == ["home", "console", "pricing", "contact"];
    } else {
      assert keys == ["home", "console", "pricing", "docs", "contact"];
    }
  }

  /**
   Where a rendered link points: an external link to its href; a router
   link to its path, except that the console link goes to the login page
   while no user is signed in.
   */
  function LinkTarget(link: NavLink, signedIn: bool): (target: string)
    ensures link.External? ==> target == link.href
    ensures link.Internal? && link.itemKey != "console" ==> target == link.to
    ensures link.Internal? && signedIn ==> target == link.to
    ensures link.Internal? && link.itemKey == "console" && !signedIn ==> target == LoginPath
  {
    match link
    case External(_, href) => href
    case Internal(key, to) => if key == "console" && !signedIn then LoginPath else to
  }

  /**
   On the main navigation, a link leads to the login page exactly when it is
   the console link and no user is signed in; every other link keeps its path.
   */
  lemma ConsoleRedirectsOnlyWhenSignedOut(docsLink: string, signedIn: bool)
    ensures forall l :: l in MainNavLinks(docsLink) ==>
              (LinkTarget(l, signedIn) == LoginPath <==> l.itemKey == "console" && !signedIn)
    ensures forall l :: l in MainNavLinks(docsLink) && !(l.itemKey == "console" && !signedIn) ==>
              LinkTarget(l, signedIn) == l.to
  {
    forall l | l in MainNavLinks(docsLink)
      ensures LinkTarget(l, signedIn) == LoginPath <==> l.itemKey == "console" && !signedIn
    {
      assert l in {Home, Console, Pricing, Docs, Contact};
      assert Home.to != LoginPath && Console.to != LoginPath && Pricing.to != LoginPath;
      assert Docs.to != LoginPath && Contact.to != LoginPath;
    }
  }

  /** A rendered navigation entry. */
  datatype NavItem =
    | Placeholder
    | RouterLink(itemKey: string, to: string)
    | Anchor(itemKey: string, href: string)

  /** Number of placeholders shown while the header is loading. */
  const LoadingPlaceholders: nat := 4

  /**
   `NavigationLinks`: four placeholders while loading; otherwise one entry
   per link, in order, with the target chosen by `LinkTarget`.
   */
  function RenderNavigation(links: seq<NavLink>, loading: bool, signedIn: bool): (items: seq<NavItem>)
    ensures loading ==> |items| == LoadingPlaceholders
    ensures loading ==> forall i :: 0 <= i < |items| ==> items[i].Placeholder?
    ensures !loading ==> |items| == |links|
    ensures !loading ==> forall i :: 0 <= i < |links| ==>
              && items[i].RouterLink? == links[i].Internal?
              && items[i].Anchor? == links[i].External?
              && !items[i].Placeholder?
              && items[i].itemKey == links[i].itemKey
              && (items[i].RouterLink? ==> items[i].to == LinkTarget(links[i], signedIn))
              && (items[i].Anchor? ==> items[i].href == links[i].href)
  {
    if loading then seq(LoadingPlaceholders, _ => Placeholder)
    else seq(|links|, i requires 0 <= i < |links| => RenderLink(links[i], signedIn))
  }

  /** One rendered link: an anchor to the href for an external link, a
      router link to `LinkTarget` otherwise, under the same key. */
  function RenderLink(link: NavLink, signedIn: bool): (item: NavItem)
    ensures item.Anchor? <==> link.External?
    ensures item.RouterLink? <==> link.Internal?
    ensures !item.Placeholder? && item.itemKey == link.itemKey
    ensures item.Anchor? ==> item.href == link.href
    ensures item.RouterLink? ==> item.to == LinkTarget(link, signedIn)
  {
    match link
    case External(key, href) => Anchor(key, href)
    case Internal(key, _) => RouterLink(key, LinkTarget(link, signedIn))
  }

  // ---------------------------------------------------------------------
  // User area and mode tag

  /** What the right end of the header shows for the user. */
  datatype UserArea =
    | AreaPlaceholder
    | AccountMenu
    | SignInButtons(showRegister: bool)

  /**
   `renderUserArea`: a placeholder while loading, the account menu for a
   signed-in user, otherwise the sign-in button and, unless the site is in
   self-use mode, the register button.
   */
  function RenderUserArea(loading: bool, signedIn: bool, selfUseMode: bool): (area: UserArea)
    ensures area.AreaPlaceholder? <==> loading
    ensures area.AccountMenu? <==> !loading && signedIn
    ensures (area.SignInButtons? && area.showRegister) <==> !loading && !signedIn && !selfUseMode
  {
    if loading then AreaPlaceholder
    else if signedIn then AccountMenu
    else SignInButtons(!selfUseMode)
  }

  /** The site-mode tag next to the logo. */
  datatype ModeTag = SelfUseTag | DemoSiteTag

  /** Shown once loaded when either mode is on; self-use mode takes precedence. */
  function RenderModeTag(selfUseMode: bool, demoSiteMode: bool, loading: bool): (tag: Option<ModeTag>)
    ensures tag.Some? <==> (selfUseMode || demoSiteMode) && !loading
    ensures tag == Some(DemoSiteTag) ==> !selfUseMode && demoSiteMode
    ensures tag.Some? ==> (tag.value == SelfUseTag <==> selfUseMode)
  {
    if (selfUseMode || demoSiteMode) && !loading then
      Some(if selfUseMode then SelfUseTag else DemoSiteTag)
    else None
  }

  // ---------------------------------------------------------------------
  // Notice tab and badge

  /** The two tabs of the notice modal. */
  datatype NoticeTab = SystemTab | InAppTab

  /** The notice modal opens on the system tab when something is unread. */
  function DefaultNoticeTab(unreadCount: nat): (tab: NoticeTab)
    ensures tab == SystemTab <==> unreadCount != 0
    ensures tab == InAppTab <==> unreadCount == 0
  {
    if unreadCount > 0 then SystemTab else InAppTab
  }

  /** The bell carries a count badge only when something is unread. */
  function ShowsBadge(unreadCount: nat): (shown: bool)
    ensures shown <==> unreadCount != 0
  {
    unreadCount > 0
  }

  /** The badge and the system tab go together. */
  lemma BadgeIffSystemTab(unreadCount: nat)
    ensures ShowsBadge(unreadCount) <==> DefaultNoticeTab(unreadCount) == SystemTab
    ensures !ShowsBadge(unreadCount) <==> DefaultNoticeTab(unreadCount) == InAppTab
  {
  }

  /** After a completed close the badge is gone and the modal would open on
      the in-app tab, and recomputing the count over the same announcements
      keeps it that way. */
  lemma CloseClearsBadge(h: ReadTracker.Header, anns: seq<ReadTracker.Announcement>)
    requires ReadTracker.NoticeClose(h, anns).Done?
    ensures !ShowsBadge(ReadTracker.NoticeClose(h, anns).header.unreadCount)
    ensures DefaultNoticeTab(ReadTracker.NoticeClose(h, anns).header.unreadCount) == InAppTab
    ensures var after := ReadTracker.Refresh(ReadTracker.NoticeClose(h, anns).header, anns);
            after.Done? && !ShowsBadge(after.header.unreadCount)
  {
    ReadTracker.CloseLeavesNothingUnread(h, anns);
  }

  /** With nothing stored yet, any announcement makes the badge appear. */
  lemma FreshAnnouncementsShowBadge(h: ReadTracker.Header, anns: seq<ReadTracker.Announcement>)
    requires |anns| > 0
    requires ReadTracker.ReadKeysEntry !in h.storage
    ensures ReadTracker.Refresh(h, anns).Done?
    ensures ShowsBadge(ReadTracker.Refresh(h, anns).header.unreadCount)
    ensures DefaultNoticeTab(ReadTracker.Refresh(h, anns).header.unreadCount) == SystemTab
  {
    ReadTracker.SoftFailureReadsAsEmpty(anns, h.storage);
  }

  // ---------------------------------------------------------------------
  // The status record and the header

  /**
   The header as the status record drives it: the docs entry appears exactly
   when a non-empty docs link is configured, the signed-out user area offers
   registration exactly when self-use mode is not switched on, and without
   announcements nothing is unread and closing the notice leaves storage
   alone.
   */
  lemma StatusDrivesHeader(status: Option<Status>, h: ReadTracker.Header)
    ensures Docs in MainNavLinks(DocsLink(status)) <==>
              status.Some? && status.value.docsLink.Some? && status.value.docsLink.value != ""
    ensures RenderUserArea(false, false, SelfUseMode(status)).showRegister <==>
              !(status.Some? && status.value.selfUseModeEnabled == Some(true))
    ensures status.None? || status.value.announcements.None? ==>
              && ReadTracker.CalculateUnreadCount(Announcements(status), h.storage) == Ok(0)
              && ReadTracker.NoticeClose(h, Announcements(status)).header.storage == h.storage
  {
  }
}
