/** The configuration of main.go (the client profile table and the host
    list) and how the builder and the protocol fit together for one
    announcement. */
module Gofoil {
  import opened Strings
  import opened Binary
  import opened Wrappers
  import FilePath
  import Catalog
  import Announce

  /** One receiving client application: its name, the TCP port it listens
      on for announcements, and the file extensions it installs. */
  datatype ClientAppSettings = ClientAppSettings(name: seq<byte>, rcvPort: seq<byte>, extensions: seq<seq<byte>>)

  const TINFOIL: seq<byte> := ['T' as byte, 'i' as byte, 'n' as byte, 'f' as byte, 'o' as byte, 'i' as byte, 'l' as byte]
  const FBI: seq<byte> := ['F' as byte, 'B' as byte, 'I' as byte]
  const PORT_2000: seq<byte> := ['2' as byte, '0' as byte, '0' as byte, '0' as byte]
  const PORT_5000: seq<byte> := ['5' as byte, '0' as byte, '0' as byte, '0' as byte]

  const NSP: seq<byte> := ['.' as byte, 'n' as byte, 's' as byte, 'p' as byte]
  const NSZ: seq<byte> := ['.' as byte, 'n' as byte, 's' as byte, 'z' as byte]
  const XCI: seq<byte> := ['.' as byte, 'x' as byte, 'c' as byte, 'i' as byte]
  const CIA: seq<byte> := ['.' as byte, 'c' as byte, 'i' as byte, 'a' as byte]
  const TIK: seq<byte> := ['.' as byte, 't' as byte, 'i' as byte, 'k' as byte]

  /** clientApps: Tinfoil on port 2000 takes .nsp, .nsz and .xci; FBI on
      port 5000 takes .cia and .tik. Each profile is filed under its own
      name, no extension belongs to both, and every extension is one that
      filepath.Ext can return, so files ending in it are matched. */
  function ClientApps(): (apps: map<seq<byte>, ClientAppSettings>)
    ensures apps.Keys == {TINFOIL, FBI}
    ensures forall name :: name in apps ==> apps[name].name == name
    ensures apps[TINFOIL].rcvPort == PORT_2000 && apps[FBI].rcvPort == PORT_5000
    ensures apps[TINFOIL].extensions == [NSP, NSZ, XCI] && apps[FBI].extensions == [CIA, TIK]
    ensures forall x :: x in apps[TINFOIL].extensions ==> x !in apps[FBI].extensions
    ensures forall name, j :: name in apps && 0 <= j < |apps[name].extensions| ==>
      FilePath.IsExtension(apps[name].extensions[j])
  {
    map[
      TINFOIL := ClientAppSettings(TINFOIL, PORT_2000, [NSP, NSZ, XCI]),
      FBI := ClientAppSettings(FBI, PORT_5000, [CIA, TIK])
    ]
  }

  /** The hosts to poll: the comma-separated configuration value, split
      into the comma-free pieces that joined with commas give it back. */
  function ClientHosts(clientHostsArg: seq<byte>): (hosts: seq<seq<byte>>)
    ensures |hosts| >= 1 && Join(hosts, COMMA) == clientHostsArg
    ensures forall i :: 0 <= i < |hosts| ==> COMMA !in hosts[i]
  {
    Split(clientHostsArg, COMMA)
  }

  /** For either profile, a walk entry is listed exactly when it is a file
      whose name ends with one of the profile's extensions. */
  lemma ProfileSelectsBySuffix(name: seq<byte>, e: Catalog.WalkEvent)
    requires name in ClientApps() && e.Entry?
    ensures var exts := ClientApps()[name].extensions;
      Catalog.Kept(e, exts) <==> !e.isDir && exists j :: 0 <= j < |exts| && EndsWith(e.name, exts[j])
  {
    Catalog.KeptBySuffix(ClientApps()[name].extensions, e);
  }

  /** One announcement end to end: whatever sorted arrangement of the walk's
      lines is sent with its total length, a receiver reads back exactly the
      lines, and cutting them at newlines gives one piece per catalog entry. */
  lemma AnnounceCatalog(cfg: Catalog.Config, extensions: seq<seq<byte>>, walk: seq<Catalog.WalkEvent>, files: seq<seq<byte>>)
    requires NEWLINE !in cfg.externalAddress
    requires multiset(files) == multiset(Catalog.Lines(cfg, extensions, walk))
    requires TotalLength(files) < TWO_TO_32
    ensures forall k :: 0 <= k < |files| ==> IsLine(files[k])
    ensures Announce.Receive(Announce.Frame(files, TotalLength(files))) == Some(Concat(files))
    ensures Split(Concat(files), NEWLINE) == Announce.Unterminated(files) + [[]]
  {
    Catalog.LinesAreLines(cfg, extensions, walk);
    var lines := Catalog.Lines(cfg, extensions, walk);
    forall k | 0 <= k < |files|
      ensures IsLine(files[k])
    {
      assert files[k] in multiset(lines) by { assert files[k] in multiset(files); }
    }
    Announce.ReceiveFrame(files, []);
    assert Announce.Frame(files, TotalLength(files)) + [] == Announce.Frame(files, TotalLength(files));
    Announce.SplitConcat(files);
  }
}
