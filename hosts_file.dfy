/** The content of a generated hosts file, line by line, in the hosts(5) format:
    comment lines, then the loopback entries, then "address name" entries. */
module HostsFile {
  import opened Text
  import opened AllowFilter

  const HEADER1: string := "# This hosts file has been generated by AdAway on:"
  const HEADER2: string := "# Please do not modify it directly, it will be overwritten when AdAway is applied again."
  const HEADER_SOURCES: string := "# This file is generated from the following sources:"
  const LOCALHOST_IPv4: string := "127.0.0.1"
  const LOCALHOST_IPv6: string := "::1"
  const LOCALHOST_HOSTNAME: string := "localhost"

  /** An enabled redirect list item: the host and the address it is redirected to. */
  datatype Redirect = Redirect(host: string, redirection: string)

  function SourceComment(url: string): string {
    "# - " + url
  }

  /** Each source URL is written with a trailing line separator and then newLine(),
      so every source comment is followed by an empty line. */
  function SourceLines(urls: seq<string>): (r: seq<string>)
    ensures |r| == 2 * |urls|
  {
    if urls == [] then [] else [SourceComment(urls[0]), ""] + SourceLines(urls[1..])
  }

  /** writeHostsHeader: HEADER1 directly followed by the date, HEADER2, HEADER_SOURCES,
      the source comments and an empty separator line. */
  function HeaderLines(date: string, urls: seq<string>): seq<string> {
    [HEADER1 + date, HEADER2, HEADER_SOURCES] + SourceLines(urls) + [""]
  }

  /** writeLoopbackToHosts. */
  function LoopbackLines(): seq<string> {
    [LOCALHOST_IPv4 + " " + LOCALHOST_HOSTNAME, LOCALHOST_IPv6 + " " + LOCALHOST_HOSTNAME]
  }

  function HostEntry(address: string, host: string): string {
    address + " " + host
  }

  /** The entries of one blocked host. */
  function HostLines(host: string, ipv4: string, ipv6: string, enableIpv6: bool): seq<string> {
    [HostEntry(ipv4, host)] + (if enableIpv6 then [HostEntry(ipv6, host)] else [])
  }

  function BlockedLines(hosts: seq<string>, ipv4: string, ipv6: string, enableIpv6: bool): (r: seq<string>)
    ensures |r| == if enableIpv6 then 2 * |hosts| else |hosts|
  {
    if hosts == [] then []
    else HostLines(hosts[0], ipv4, ipv6, enableIpv6) + BlockedLines(hosts[1..], ipv4, ipv6, enableIpv6)
  }

  function RedirectLine(r: Redirect): string {
    r.host + " " + r.redirection
  }

  function RedirectLines(redirects: seq<Redirect>): (r: seq<string>)
    ensures |r| == |redirects|
  {
    if redirects == [] then [] else [RedirectLine(redirects[0])] + RedirectLines(redirects[1..])
  }

  /** writeHosts: the allowed-filtered blocked hosts, then the redirects, which bypass the filter. */
  function EntryLines(blocked: seq<string>, allowed: seq<string>, redirects: seq<Redirect>,
                      ipv4: string, ipv6: string, enableIpv6: bool): seq<string>
  {
    BlockedLines(ComputeBlockedHosts(blocked, allowed), ipv4, ipv6, enableIpv6) + RedirectLines(redirects)
  }

  /** The whole generated file (createNewHostsFile). */
  function HostsFileLines(date: string, urls: seq<string>, blocked: seq<string>, allowed: seq<string>,
                          redirects: seq<Redirect>, ipv4: string, ipv6: string, enableIpv6: bool): seq<string>
  {
    HeaderLines(date, urls) + LoopbackLines() + EntryLines(blocked, allowed, redirects, ipv4, ipv6, enableIpv6)
  }

  /** The file revertHostFile writes: the two loopback entries, each ended by the line separator. */
  function DefaultHostsText(): string {
    LOCALHOST_IPv4 + " " + LOCALHOST_HOSTNAME + LINE_SEPARATOR +
    LOCALHOST_IPv6 + " " + LOCALHOST_HOSTNAME + LINE_SEPARATOR
  }

  // ---------------------------------------------------------------------------------------------
  // Appending one item at a time, as the writer loops do

  lemma {:induction false} SourceLinesAppend(a: seq<string>, b: seq<string>)
    ensures SourceLines(a + b) == SourceLines(a) + SourceLines(b)
  {
    if a == [] {
      assert a + b == b;
    } else {
      assert (a + b)[0] == a[0] && (a + b)[1..] == a[1..] + b;
      SourceLinesAppend(a[1..], b);
    }
  }

  lemma {:induction false} BlockedLinesAppend(a: seq<string>, b: seq<string>, ipv4: string, ipv6: string, enableIpv6: bool)
    ensures BlockedLines(a + b, ipv4, ipv6, enableIpv6)
         == BlockedLines(a, ipv4, ipv6, enableIpv6) + BlockedLines(b, ipv4, ipv6, enableIpv6)
  {
    if a == [] {
      assert a + b == b;
    } else {
      assert (a + b)[0] == a[0] && (a + b)[1..] == a[1..] + b;
      BlockedLinesAppend(a[1..], b, ipv4, ipv6, enableIpv6);
    }
  }

  lemma {:induction false} RedirectLinesAppend(a: seq<Redirect>, b: seq<Redirect>)
    ensures RedirectLines(a + b) == RedirectLines(a) + RedirectLines(b)
  {
    if a == [] {
      assert a + b == b;
    } else {
      assert (a + b)[0] == a[0] && (a + b)[1..] == a[1..] + b;
      RedirectLinesAppend(a[1..], b);
    }
  }

  // ---------------------------------------------------------------------------------------------
  // The text each writer call adds

  /** After the text of the first sources' lines, writing a source comment with its own line
      separator and then newLine() gives the text of one more source's lines. */
  lemma RenderSourceLinesStep(prefix: string, urls: seq<string>, i: nat)
    requires i < |urls|
    ensures prefix + Render(SourceLines(urls[..i])) + (SourceComment(urls[i]) + LINE_SEPARATOR) + LINE_SEPARATOR
         == prefix + Render(SourceLines(urls[..i + 1]))
  {
    assert urls[..i + 1] == urls[..i] + [urls[i]];
    SourceLinesAppend(urls[..i], [urls[i]]);
    var c := SourceComment(urls[i]);
    assert SourceLines([urls[i]]) == [c] + [""];
    RenderSnoc(prefix, SourceLines(urls[..i]), c);
    RenderSnoc(prefix, SourceLines(urls[..i]) + [c], "");
    assert SourceLines(urls[..i]) + [c] + [""] == SourceLines(urls[..i + 1]);
  }

  /** Writing a blocked host's IPv4 entry and a newLine() (and then, with IPv6 enabled, its IPv6
      entry and a newLine()) gives the text of one more host's entries. */
  lemma RenderBlockedLinesStep(prefix: string, hosts: seq<string>, i: nat, ipv4: string, ipv6: string, enableIpv6: bool)
    requires i < |hosts|
    ensures var before := prefix + Render(BlockedLines(hosts[..i], ipv4, ipv6, enableIpv6));
            var after := prefix + Render(BlockedLines(hosts[..i + 1], ipv4, ipv6, enableIpv6));
            && (enableIpv6 ==>
                  before + (ipv4 + " " + hosts[i]) + LINE_SEPARATOR + (ipv6 + " " + hosts[i]) + LINE_SEPARATOR == after)
            && (!enableIpv6 ==> before + (ipv4 + " " + hosts[i]) + LINE_SEPARATOR == after)
  {
    var done := BlockedLines(hosts[..i], ipv4, ipv6, enableIpv6);
    assert hosts[..i + 1] == hosts[..i] + [hosts[i]];
    BlockedLinesAppend(hosts[..i], [hosts[i]], ipv4, ipv6, enableIpv6);
    var one := HostLines(hosts[i], ipv4, ipv6, enableIpv6);
    assert BlockedLines([hosts[i]], ipv4, ipv6, enableIpv6) == one;
    RenderSnoc(prefix, done, HostEntry(ipv4, hosts[i]));
    if enableIpv6 {
      RenderSnoc(prefix, done + [HostEntry(ipv4, hosts[i])], HostEntry(ipv6, hosts[i]));
      assert done + [HostEntry(ipv4, hosts[i])] + [HostEntry(ipv6, hosts[i])] == done + one;
    } else {
      assert done + [HostEntry(ipv4, hosts[i])] == done + one;
    }
  }

  /** Writing a redirect's line and a newLine() gives the text of one more redirect. */
  lemma RenderRedirectLinesStep(prefix: string, redirects: seq<Redirect>, j: nat)
    requires j < |redirects|
    ensures prefix + Render(RedirectLines(redirects[..j])) + (redirects[j].host + " " + redirects[j].redirection)
              + LINE_SEPARATOR
         == prefix + Render(RedirectLines(redirects[..j + 1]))
  {
    assert redirects[..j + 1] == redirects[..j] + [redirects[j]];
    RedirectLinesAppend(redirects[..j], [redirects[j]]);
    assert RedirectLines([redirects[j]]) == [RedirectLine(redirects[j])];
    RenderSnoc(prefix, RedirectLines(redirects[..j]), RedirectLine(redirects[j]));
  }

  /** The whole file is the header, then the loopback entries, then the host entries. */
  lemma RenderHostsFileLines(date: string, urls: seq<string>, blocked: seq<string>, allowed: seq<string>,
                             redirects: seq<Redirect>, ipv4: string, ipv6: string, enableIpv6: bool)
    ensures Render(HostsFileLines(date, urls, blocked, allowed, redirects, ipv4, ipv6, enableIpv6))
         == Render(HeaderLines(date, urls)) + Render(LoopbackLines())
            + Render(BlockedLines(ComputeBlockedHosts(blocked, allowed), ipv4, ipv6, enableIpv6))
            + Render(RedirectLines(redirects))
  {
    var b := BlockedLines(ComputeBlockedHosts(blocked, allowed), ipv4, ipv6, enableIpv6);
    RenderAppend(HeaderLines(date, urls), LoopbackLines());
    RenderAppend(HeaderLines(date, urls) + LoopbackLines(), EntryLines(blocked, allowed, redirects, ipv4, ipv6, enableIpv6));
    RenderAppend(b, RedirectLines(redirects));
  }

  // ---------------------------------------------------------------------------------------------
  // Where each entry lands

  /** The k-th enabled source gives the comment line 2k, followed by an empty line. */
  lemma {:induction false} SourceLinesAt(urls: seq<string>, k: nat)
    requires k < |urls|
    ensures SourceLines(urls)[2 * k] == SourceComment(urls[k])
    ensures SourceLines(urls)[2 * k + 1] == ""
  {
    if k > 0 {
      SourceLinesAt(urls[1..], k - 1);
    }
  }

  /** The k-th kept host gives its IPv4 entry, immediately followed by its IPv6 entry
      when IPv6 is enabled; with IPv6 disabled every line is an IPv4 entry. */
  lemma {:induction false} BlockedLinesAt(hosts: seq<string>, ipv4: string, ipv6: string, enableIpv6: bool, k: nat)
    requires k < |hosts|
    ensures enableIpv6 ==> BlockedLines(hosts, ipv4, ipv6, enableIpv6)[2 * k] == HostEntry(ipv4, hosts[k])
    ensures enableIpv6 ==> BlockedLines(hosts, ipv4, ipv6, enableIpv6)[2 * k + 1] == HostEntry(ipv6, hosts[k])
    ensures !enableIpv6 ==> BlockedLines(hosts, ipv4, ipv6, enableIpv6)[k] == HostEntry(ipv4, hosts[k])
  {
    if k > 0 {
      BlockedLinesAt(hosts[1..], ipv4, ipv6, enableIpv6, k - 1);
    }
  }

  /** The k-th redirect is written verbatim as line k of the redirect section. */
  lemma {:induction false} RedirectLinesAt(redirects: seq<Redirect>, k: nat)
    requires k < |redirects|
    ensures RedirectLines(redirects)[k] == redirects[k].host + " " + redirects[k].redirection
  {
    if k > 0 {
      RedirectLinesAt(redirects[1..], k - 1);
    }
  }

  lemma EntryDeterminesHost(address: string, h: string, g: string)
    ensures HostEntry(address, h) == HostEntry(address, g) <==> h == g
  {
    if HostEntry(address, h) == HostEntry(address, g) {
      assert h == HostEntry(address, h)[|address| + 1..];
      assert g == HostEntry(address, g)[|address| + 1..];
    }
  }

  /** With IPv6 disabled, a host has an entry among the blocked lines exactly when it is in the list. */
  lemma {:induction false} BlockedEntryIff(hosts: seq<string>, ipv4: string, ipv6: string, h: string)
    ensures HostEntry(ipv4, h) in BlockedLines(hosts, ipv4, ipv6, false) <==> h in hosts
  {
    if hosts != [] {
      BlockedEntryIff(hosts[1..], ipv4, ipv6, h);
      EntryDeterminesHost(ipv4, h, hosts[0]);
      assert HostLines(hosts[0], ipv4, ipv6, false) == [HostEntry(ipv4, hosts[0])];
      assert hosts == [hosts[0]] + hosts[1..];
    }
  }

  /** The allow filter on the generated file (IPv6 disabled): a blocked host gets an entry
      exactly when no allowed pattern finds a match in it. */
  lemma AllowFilterOnEntries(blocked: seq<string>, allowed: seq<string>, ipv4: string, ipv6: string, h: string)
    ensures HostEntry(ipv4, h) in BlockedLines(ComputeBlockedHosts(blocked, allowed), ipv4, ipv6, false)
        <==> h in blocked && PassesAllowFilter(allowed, h)
  {
    BlockedEntryIff(ComputeBlockedHosts(blocked, allowed), ipv4, ipv6, h);
  }

  /** Host h is written as the IPv4 and IPv6 line pair at position k of a blocked section with
      IPv6 enabled. */
  predicate HasEntryPairAt(lines: seq<string>, ipv4: string, ipv6: string, h: string, k: nat) {
    2 * k + 1 < |lines| && lines[2 * k] == HostEntry(ipv4, h) && lines[2 * k + 1] == HostEntry(ipv6, h)
  }

  /** The allow filter on the generated file (IPv6 enabled): a blocked host gets its pair of
      entries exactly when no allowed pattern finds a match in it. */
  lemma AllowFilterOnEntriesIpv6(blocked: seq<string>, allowed: seq<string>, ipv4: string, ipv6: string, h: string)
    ensures (exists k: nat :: HasEntryPairAt(BlockedLines(ComputeBlockedHosts(blocked, allowed), ipv4, ipv6, true), ipv4, ipv6, h, k))
        <==> h in blocked && PassesAllowFilter(allowed, h)
  {
    var kept := ComputeBlockedHosts(blocked, allowed);
    var lines := BlockedLines(kept, ipv4, ipv6, true);
    assert h in kept <==> h in blocked && PassesAllowFilter(allowed, h);
    if k: nat :| HasEntryPairAt(lines, ipv4, ipv6, h, k) {
      BlockedLinesAt(kept, ipv4, ipv6, true, k);
      EntryDeterminesHost(ipv4, h, kept[k]);
      assert kept[k] == h;
    }
    if h in kept {
      var k: nat :| k < |kept| && kept[k] == h;
      BlockedLinesAt(kept, ipv4, ipv6, true, k);
      assert HasEntryPairAt(lines, ipv4, ipv6, h, k);
    }
    assert (exists k: nat :: HasEntryPairAt(BlockedLines(ComputeBlockedHosts(blocked, allowed), ipv4, ipv6, true), ipv4, ipv6, h, k)) ==> h in kept;
    assert h in kept ==> (exists k: nat :: HasEntryPairAt(BlockedLines(ComputeBlockedHosts(blocked, allowed), ipv4, ipv6, true), ipv4, ipv6, h, k));
  }

  /** The layout of the generated file, with n enabled sources and m kept blocked hosts. */
  lemma HostsFileLayout(date: string, urls: seq<string>, blocked: seq<string>, allowed: seq<string>,
                        redirects: seq<Redirect>, ipv4: string, ipv6: string, enableIpv6: bool)
    ensures var f := HostsFileLines(date, urls, blocked, allowed, redirects, ipv4, ipv6, enableIpv6);
            var n := |urls|;
            var b := BlockedLines(ComputeBlockedHosts(blocked, allowed), ipv4, ipv6, enableIpv6);
            && |f| == 6 + 2 * n + |b| + |redirects|
            && f[0] == HEADER1 + date
            && f[1] == HEADER2
            && f[2] == HEADER_SOURCES
            && f[3..3 + 2 * n] == SourceLines(urls)
            && f[3 + 2 * n] == ""
            && f[4 + 2 * n] == LOCALHOST_IPv4 + " " + LOCALHOST_HOSTNAME
            && f[5 + 2 * n] == LOCALHOST_IPv6 + " " + LOCALHOST_HOSTNAME
            && f[6 + 2 * n..6 + 2 * n + |b|] == b
            && f[6 + 2 * n + |b|..] == RedirectLines(redirects)
  {
    var b := BlockedLines(ComputeBlockedHosts(blocked, allowed), ipv4, ipv6, enableIpv6);
    HostsFileSections(date, urls, blocked, allowed, redirects, ipv4, ipv6, enableIpv6);
    SectionsAt([HEADER1 + date, HEADER2, HEADER_SOURCES], SourceLines(urls), LoopbackLines(), b, RedirectLines(redirects));
  }

  /** The generated file as its sections, one after the other. */
  lemma HostsFileSections(date: string, urls: seq<string>, blocked: seq<string>, allowed: seq<string>,
                          redirects: seq<Redirect>, ipv4: string, ipv6: string, enableIpv6: bool)
    ensures HostsFileLines(date, urls, blocked, allowed, redirects, ipv4, ipv6, enableIpv6)
         == [HEADER1 + date, HEADER2, HEADER_SOURCES] + SourceLines(urls) + [""] + LoopbackLines()
            + BlockedLines(ComputeBlockedHosts(blocked, allowed), ipv4, ipv6, enableIpv6) + RedirectLines(redirects)
  {
  }

  /** Where each section of a file laid out as three header lines, the source lines, an empty
      line, two loopback lines, the blocked lines and the redirect lines begins and ends. */
  lemma SectionsAt(header: seq<string>, sources: seq<string>, loopback: seq<string>, b: seq<string>, r: seq<string>)
    requires |header| == 3 && |loopback| == 2
    ensures var f := header + sources + [""] + loopback + b + r;
            var m := |sources|;
            && |f| == 6 + m + |b| + |r|
            && f[0] == header[0] && f[1] == header[1] && f[2] == header[2]
            && f[3..3 + m] == sources
            && f[3 + m] == ""
            && f[4 + m] == loopback[0] && f[5 + m] == loopback[1]
            && f[6 + m..6 + m + |b|] == b
            && f[6 + m + |b|..] == r
  {
    var f := header + sources + [""] + loopback + b + r;
    var m := |sources|;
    assert f[3..3 + m] == sources;
    assert f[6 + m..6 + m + |b|] == b;
    assert f[6 + m + |b|..] == r;
  }

  /** Two files generated from the same rules differ at most in their first (timestamp) line. */
  lemma OnlyTimestampDiffers(date1: string, date2: string, urls: seq<string>, blocked: seq<string>,
                             allowed: seq<string>, redirects: seq<Redirect>, ipv4: string, ipv6: string, enableIpv6: bool)
    ensures var f1 := HostsFileLines(date1, urls, blocked, allowed, redirects, ipv4, ipv6, enableIpv6);
            var f2 := HostsFileLines(date2, urls, blocked, allowed, redirects, ipv4, ipv6, enableIpv6);
            |f1| == |f2| && f1[1..] == f2[1..]
  {
  }

  /** The first header line is a single comment line, so a reader's first line of a generated
      file is HEADER1 followed by the timestamp. */
  lemma HeaderIsSingleLine()
    ensures SingleLine(HEADER1) && HEADER1[0] == '#'
  {
    var a, b, c := "# This hosts file ", "has been generated ", "by AdAway on:";
    HeaderChunks();
    HeaderChunksAreSingleLines();
    SingleLineAppend(a, b);
    SingleLineAppend(a + b, c);
    assert HEADER1[0] == a[0];
  }

  lemma HeaderChunks()
    ensures HEADER1 == "# This hosts file " + "has been generated " + "by AdAway on:"
  {
  }

  lemma HeaderChunksAreSingleLines()
    ensures SingleLine("# This hosts file ") && SingleLine("has been generated ") && SingleLine("by AdAway on:")
  {
  }

  /** The reverted file holds exactly the two loopback entries. */
  lemma DefaultHostsTextIsLoopback()
    ensures DefaultHostsText() == Render(LoopbackLines())
    ensures LinesOf(DefaultHostsText()) == LoopbackLines()
  {
    RenderTwo(LOCALHOST_IPv4 + " " + LOCALHOST_HOSTNAME, LOCALHOST_IPv6 + " " + LOCALHOST_HOSTNAME);
    LoopbackLinesHaveNoBreak();
    LinesOfRender(LoopbackLines());
  }

  lemma LoopbackLinesHaveNoBreak()
    ensures forall l | l in LoopbackLines() :: '\n' !in l
  {
    assert SingleLine(LOCALHOST_IPv4 + " " + LOCALHOST_HOSTNAME);
    assert SingleLine(LOCALHOST_IPv6 + " " + LOCALHOST_HOSTNAME);
  }

  /** A worked example: with allow pattern "*example*" and IPv6 disabled the only
      blocked entry is "127.0.0.1 a.com". */
  lemma ExampleEntries()
    ensures BlockedLines(ComputeBlockedHosts(["a.com", "ads.example.com"], ["*example*"]), "127.0.0.1", "::1", false)
         == ["127.0.0.1 a.com"]
  {
    ExampleAllowList();
    assert ["a.com"][1..] == [];
    assert HostEntry("127.0.0.1", "a.com") == "127.0.0.1 a.com";
    assert BlockedLines(["a.com"], "127.0.0.1", "::1", false) == HostLines("a.com", "127.0.0.1", "::1", false);
  }
}
