/** How main() puts the parts together: what a parsed command line means for the hand-over. */
module Program {
  import opened Text
  import Options
  import Handoff

  /** The branches of main() on the parsed options. */
  function ModeOf(o: Options.Options): Handoff.Mode {
    if o.tapfd >= 0 then Handoff.Tapfd
    else if o.raw.targetType == Some("bess") then Handoff.Bess
    else Handoff.Netns(o.raw.configure)
  }

  /** For every accepted command line the child gets what its steps need: in BESS mode a socket path and no
      interface to configure; in netns mode a tap name, and a namespace path or a positive pid to enter.
      So the null checks in open_tap and child_bess never fail. */
  lemma ChildGetsItsArguments(opts: seq<Options.Opt>, args: seq<string>, onDisk: string -> bool)
    ensures Options.Parse(opts, args, onDisk).Parsed? ==>
              var o := Options.Parse(opts, args, onDisk).options;
              match ModeOf(o)
              case Tapfd => o.raw.netnsType == Some("tapfd") && o.bessSocket.None? && o.tapname.None?
              case Bess => o.bessSocket.Some? && !o.raw.configure && o.raw.usernsPath.None?
              case Netns(_) => o.tapname.Some? && o.bessSocket.None? && (o.netnsPath.Some? <==> o.targetPid == 0)
  {
    hide Options.Parse;
    hide Options.Collected;
    hide Options.IntArg;
    Options.ParsedIsConsistent(opts, args, onDisk);
  }
}
