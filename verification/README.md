# defaultconf, modelled in Dafny

defaultconf is a FreeBSD daemon that keeps one default route per address
family. Hooks register candidate gateways with a protocol tag, such as
`static`, `dhcp`, `ppp` or `ra`. The registry ranks the candidates by a
configured list of priority rules and, within a rule, newest first. The daemon
mirrors the kernel's links, addresses and routes from netlink notifications,
picks the first ranked gateway that is reachable on an up link, and reconciles
the kernel's default route with it. A command-line front end edits the
registry (`add`, `remove`, `enable`, `disable`) and reports the current choice
(`get-default`). A PF_ROUTE decoder walks the sockaddrs behind a routing
message header and prints them.

The modules:

| file | module | models |
|---|---|---|
| `wrappers.dfy` | `Wrappers` | `Option` and `Result`: raised exceptions become `Failure` |
| `ipaddr.dfy` | `IpAddr` | addresses, networks and interface addresses: a family, an unsigned number and a prefix length; containment is equality of the leading bits |
| `registry.dfy` | `Registry` | `Gateway`, `GatewaySelect.matches`, `State.add/remove/disable/enable` and `DefaultConf.get_defaults` of `src/defaultconf/common.py`, and their duplicates in `src/defaultconf/defaultconf.py` (where `link` is named `iface`) |
| `netlink.dfy` | `NetLink` | `NetTables`, `addr_to_af`, `parse_nlmsg` and the notification dispatch of `src/defaultconf/bsdnetlink.py` |
| `daemon.dfy` | `Daemon` | `default_test` and `normalize_default` of `src/defaultconf/daemon.py`; the route calls are returned as values, and their effect on the kernel's route table is a function |
| `routesock.dfy` | `RouteSocket` | `SA_SIZE`, `ensure_buffer`, `get_rtm_addrs`, `str_sockaddr` and `str_flags` of `src/defaultconf/bsdroute.py`, over message bytes in the amd64 layout (`sizeof(long)` is 8) |
| `cli.dfy` | `Cli` | `validate_protocol`, `parse_af` and the `add`, `remove`, `enable`, `disable` and `get-default` actions of `src/defaultconf/defaultconf.py` |

Where the code does something other than what it evidently means, the model
follows the code. It states the difference in a lemma and models the
corrected behaviour beside it (see "Findings").

## Model

| member | source | states |
|---|---|---|
| `Registry.GatewaySelect.MatchesFields` | src/defaultconf/common.py:41-51 | `matches(o)` holds iff every selector field that is set equals the object's field; the object may be a gateway or another selector |
| `Registry.GatewaySelect.Matches` | src/defaultconf/defaultconf.py:47-57 | on a gateway: each of `af`, `iface`/`link`, `protocol` is either unset in the selector or equal to the gateway's |
| `Registry.MatchAll` | src/defaultconf/common.py:38-51 | the selector with all three fields `None` has no constraint and matches every gateway |
| `Registry.KeySelect` | src/defaultconf/common.py:84-86 | the selector `add` removes with matches exactly the gateways with the same `(af, link, protocol)` key |
| `Registry.WithGateway` | src/defaultconf/common.py:84-87 | after `add` the new gateway is present, it is the only one with its key, and membership of every other key is unchanged |
| `Registry.AddKeepsKeysUnique` | src/defaultconf/defaultconf.py:84-87 | `add` keeps at most one gateway per key, and exactly one for the key added |
| `Registry.RemoveKeepsKeysUnique` | src/defaultconf/common.py:89-91 | after `remove(select)` no remaining gateway matches `select`, and uniqueness of keys is kept |
| `Registry.DisableThenEnable` | src/defaultconf/common.py:93-98 | `enable(s)` after `disable(s)` takes `s` out again, leaving what `enable(s)` alone would leave |
| `Registry.EnableAll` | src/defaultconf/common.py:96-98 | `enable()` with no field set re-enables everything |
| `Registry.State.Add` | src/defaultconf/common.py:84-87 | the gateway set becomes the replace-by-key update of the old one; `disabled` is untouched |
| `Registry.State.Remove` | src/defaultconf/common.py:89-91 | the gateway set loses exactly the matching gateways; `disabled` is untouched |
| `Registry.State.Disable` | src/defaultconf/common.py:93-94 | `disabled` gains exactly the selector; the gateways are untouched |
| `Registry.State.Enable` | src/defaultconf/defaultconf.py:96-98 | `disabled` loses exactly the selectors that the given selector matches; the gateways are untouched |
| `Registry.RankFrom` | src/defaultconf/common.py:164-173 | the bucket of a gateway is the first priority rule that matches it, or the final catch-all bucket when none does |
| `Registry.DefaultConf.IsEnabled` | src/defaultconf/common.py:154-158 | `enabled_filter` is true exactly when no disabled selector matches the gateway |
| `Registry.DefaultConf.BucketOf` | src/defaultconf/common.py:165-173 | the inner loop of `get_defaults` files a gateway in its first matching rule's bucket |
| `Registry.SortByTsDesc` | src/defaultconf/common.py:176-177 | sorting a bucket by `ts` with `reverse=True` gives a permutation with `ts` non-increasing |
| `Registry.InsertByTs` | src/defaultconf/common.py:177 | one insertion step of that sort keeps `ts` non-increasing and adds exactly the element |
| `Registry.AppendBucket` | src/defaultconf/common.py:175-177 | appending the sorted bucket of a later rule keeps the output free of duplicates and ranked |
| `Registry.DefaultConf.GetDefaults` | src/defaultconf/common.py:149-179 | the output holds each gateway that matches the selector and that no disabled selector matches, exactly once, so the output is as long as the selection; lower buckets come first, unmatched gateways last, newest first within a bucket |
| `Registry.NoDupCardinality` | src/defaultconf/defaultconf.py:149-179 | a duplicate-free output with the selected gateways as its members has exactly as many entries as there are selected gateways, so it is a permutation of them |
| `Registry.HeadIsBest` | src/defaultconf/common.py:164-179 | the head of a ranked output is selected, no selected gateway is in a lower bucket, and none in its bucket is newer |
| `NetLink.AddrToAf` | src/defaultconf/bsdnetlink.py:111-121 | IPv4 and IPv6 addresses and networks give their family; any other object (an interface address included, since the test is `type(x) is`) fails |
| `NetLink.ParseNlMsg` | src/defaultconf/bsdnetlink.py:74-83 | the link, address or route parser is picked exactly for the NEW/DEL pair of its kind; any other type fails |
| `NetLink.Tables.NewLink` | src/defaultconf/bsdnetlink.py:233-236 | after `new_link(l)`, `l` is the only link with its index; links with other indices are unchanged; the other tables are untouched |
| `NetLink.Tables.DelLink` | src/defaultconf/bsdnetlink.py:238-241 | `del_link(l)` removes every link with `l`'s index, whatever its name or flag, and nothing else |
| `NetLink.NewIdempotent` | src/defaultconf/bsdnetlink.py:247-249 | `new_addr` and `new_route` insert the element, and a repeated call changes nothing |
| `NetLink.DelExact` | src/defaultconf/bsdnetlink.py:251-265 | `del_addr` and `del_route` remove exactly the given element; deleting an absent one changes nothing |
| `NetLink.NewLinkLastWins` | src/defaultconf/bsdnetlink.py:233-241 | of two `new_link`s for the same index, the later one decides the table |
| `NetLink.AddrBeforeLink` | src/defaultconf/bsdnetlink.py:247-249 | an address notification and a link notification commute, so an address that arrives before its link is kept |
| `NetLink.HandleTouchesParsedTable` | src/defaultconf/bsdnetlink.py:297-310 | the handler changes only the table of the kind `parse_nlmsg` assigns to the type, and nothing for any other type |
| `NetLink.NetTables.NewLink` | src/defaultconf/bsdnetlink.py:233-236 | the in-place update equals the value-level `new_link` on the old tables |
| `NetLink.NetTables.DelLink` | src/defaultconf/bsdnetlink.py:238-241 | the in-place update equals the value-level `del_link` on the old tables |
| `NetLink.NetTables.NewAddr` | src/defaultconf/bsdnetlink.py:247-249 | the in-place update equals the value-level `new_addr` |
| `NetLink.NetTables.DelAddr` | src/defaultconf/bsdnetlink.py:251-253 | the in-place update equals the value-level `del_addr` |
| `NetLink.NetTables.NewRoute` | src/defaultconf/bsdnetlink.py:259-261 | the in-place update equals the value-level `new_route` |
| `NetLink.NetTables.DelRoute` | src/defaultconf/bsdnetlink.py:263-265 | the in-place update equals the value-level `del_route` |
| `NetLink.NetTables.GetLinks` | src/defaultconf/bsdnetlink.py:243-245 | exactly the links satisfying the predicate, read without modification |
| `NetLink.NetTables.GetAddrs` | src/defaultconf/bsdnetlink.py:255-257 | exactly the addresses satisfying the predicate, read without modification |
| `NetLink.NetTables.GetRoutes` | src/defaultconf/bsdnetlink.py:267-269 | exactly the routes satisfying the predicate, read without modification |
| `NetLink.NetTables.HandleNotification` | src/defaultconf/bsdnetlink.py:297-310 | one handler step applies the table operation its type selects, and only that |
| `NetLink.NetTables.HandleNotifications` | src/defaultconf/bsdnetlink.py:291-311 | the handler loop leaves the tables as the notifications applied in order |
| `Daemon.NotUsableWithoutUniqueLink` | src/defaultconf/daemon.py:32-37 | with zero links, or several links, carrying the gateway's link name, the gateway is not usable and `default_test` answers `False` |
| `Daemon.UsableOnUniqueLink` | src/defaultconf/daemon.py:39-56 | with one such link: down, the gateway is unusable and the code answers `False`; an address network on the link containing the gateway makes it usable and the code answers `True`; otherwise it is usable iff a route on the link contains it, while the code raises iff the link has any route at all, and answers `False` when it has none |
| `Daemon.TestAsWrittenAgrees` | src/defaultconf/daemon.py:30-56 | whenever the code's test answers, its answer is the usability condition; it raises exactly when the one up link has no address network containing the gateway but has some route |
| `Daemon.RouteTestRaises` | src/defaultconf/daemon.py:50-54 | a gateway reached only through a route on its up link is usable, yet the code's route loop raises `AttributeError` for it |
| `Daemon.DefaultRouteMakesUsable` | src/defaultconf/daemon.py:50-54 | a default route through the gateway's unique, up link makes any valid gateway address of that family usable; when no address network of the link contains the gateway, the code raises instead |
| `Daemon.DefaultTest` | src/defaultconf/daemon.py:30-56 | the early-return scan as written: `False` without a unique up link, `True` at the first address network containing the gateway, then `AttributeError` at the first route of the link, and `False` when it has none |
| `Daemon.DefaultTestIntended` | src/defaultconf/daemon.py:30-56 | the same scans with `route.dst` in place of `route.dst.network` answer exactly the usability condition |
| `Daemon.FirstUsable` | src/defaultconf/daemon.py:60-61 | with the intended test, the choice is the first usable gateway of the ranked list, or none when no gateway of it is usable |
| `Daemon.FirstAsWritten` | src/defaultconf/daemon.py:60-61 | with the code's test, the lazy `filter` raises `AttributeError` exactly when some gateway's test raises and every gateway ranked before it answers `False`; otherwise the choice is the first usable gateway |
| `Daemon.FirstDefault` | src/defaultconf/daemon.py:60-61 | the loop over the ranked gateways, stopping at the first `True` and letting an exception through, computes exactly that result |
| `Daemon.CurrentDefault` | src/defaultconf/daemon.py:63-69 | the current default is the route to the family's default destination when there is exactly one, else none |
| `Daemon.DecisionTable` | src/defaultconf/daemon.py:70-86 | no choice and no current default: nothing; no choice: delete the current default; no current default: add one through the choice; a different gateway: delete, then add; the same gateway address: nothing, even if the link index differs |
| `Daemon.ReconcileConverges` | src/defaultconf/daemon.py:70-86 | with at most one default route present, once the intended calls take effect the family has a default route exactly when a gateway was chosen, and it goes through that gateway |
| `Daemon.ReconcileIdempotent` | src/defaultconf/daemon.py:70-86 | deciding again after the calls took effect, with the same choice, decides to do nothing |
| `Daemon.SeveralDefaultsStay` | src/defaultconf/daemon.py:63-81 | with two or more default routes there is no current default, and the calls leave the route table as it was, so reconciling never gets down to one default route |
| `Daemon.ReplaceAsWrittenDropsDefault` | src/defaultconf/daemon.py:84-86 | as written, replacing a default through another gateway deletes it and then raises, leaving the family with no default route |
| `Daemon.NormalizeDefault` | src/defaultconf/daemon.py:58-86 | ranks the family's gateways; raises the test's `AttributeError` exactly when the lazy `filter` does, before any route call; otherwise its action is the decision table applied to the first usable gateway and the current default route |
| `RouteSocket.SaSize` | src/defaultconf/bsdroute.py:112-116 | a zero length takes one long; any other length is rounded up to the next multiple of a long, which lies below the length plus a long |
| `RouteSocket.EnsureBuffer` | src/defaultconf/bsdroute.py:136-141 | with room enough, buffer and offset come back unchanged; otherwise offset 0 and a buffer of at least the size requested, starting with the whole source |
| `RouteSocket.EnsureBufferLosesOffset` | src/defaultconf/bsdroute.py:136-141 | as written, the padded window for a sockaddr at byte 92 of a 100-byte message starts at byte 0 |
| `RouteSocket.EnsureBufferAt` | src/defaultconf/bsdroute.py:136-141 | as intended, the window at the returned offset holds the source's bytes from the given offset on, zero past its end |
| `RouteSocket.ReadSockaddr` | src/defaultconf/bsdroute.py:149-172 | a sockaddr is read exactly when 16 bytes remain, its length is non-zero and its family is INET, LINK or INET6 with 28 bytes left; the structure is the one its family byte names, and the cursor advances by `SA_SIZE` of its length byte; a structure that fits before the end holds the message's bytes from the cursor and is well formed; a link-layer sockaddr within 54 bytes of the end is overlaid on the message's first 54 bytes, zero-padded |
| `RouteSocket.ReadSockaddrAt` | src/defaultconf/bsdroute.py:158-160 | with `ensure_buffer` as intended: the same success condition and cursor move, and every sockaddr read is well formed and holds the message's bytes from the cursor, zero-padded past the end |
| `RouteSocket.ReadersAgree` | src/defaultconf/bsdroute.py:158-160 | the two readers fail alike and move the cursor alike; they read the same sockaddr except a link-layer one within 54 bytes of the end |
| `RouteSocket.ReadSockaddrAtSound` | src/defaultconf/bsdroute.py:149-172 | every sockaddr the intended reader reads is well formed, and the cursor moves by `SA_SIZE` of that sockaddr's own length byte |
| `RouteSocket.SaSizeRounds` | src/defaultconf/bsdroute.py:112-116 | for every length byte, `SA_SIZE` is at least one long and a whole number of longs |
| `RouteSocket.RequestedFromMembers` | src/defaultconf/bsdroute.py:145-147 | from a position of the visiting order on, the walk wants exactly the kinds that are wanted and occur at that position or later |
| `RouteSocket.KindsDistinct` | src/defaultconf/bsdroute.py:57-65 | the enumeration of address kinds names each of its eight kinds once |
| `RouteSocket.RequestedFromStart` | src/defaultconf/bsdroute.py:57-65 | visiting the enumeration from its first kind, the walk wants every kind whose bit is set, and no other |
| `RouteSocket.WalkKeys` | src/defaultconf/bsdroute.py:145-171 | a successful walk adds to what was found exactly the wanted kinds from its position on |
| `RouteSocket.WalkWellFormed` | src/defaultconf/bsdroute.py:149-171 | with a reader of well-formed sockaddrs, every sockaddr a successful walk binds is well formed |
| `RouteSocket.WalkKeeps` | src/defaultconf/bsdroute.py:145-171 | over an order that names no kind twice, the walk leaves the sockaddr already found for an earlier kind alone |
| `RouteSocket.WalkOffset` | src/defaultconf/bsdroute.py:149-172 | with a reader that moves by a size rule, the final cursor is the start plus the sum of the sizes of the sockaddrs found |
| `RouteSocket.SizesAligned` | src/defaultconf/bsdroute.py:112-116 | when every size is a whole number of longs, so is the sum over the sockaddrs found |
| `RouteSocket.WalkAtLeast` | src/defaultconf/bsdroute.py:172 | when every move is at least one long, the cursor moves by at least one long per sockaddr read |
| `RouteSocket.WalkTotals` | src/defaultconf/bsdroute.py:143-173 | for any such reader and rounding size rule, the cursor ends at the start plus the sizes read, a whole number of longs past the start and at least one long per sockaddr |
| `RouteSocket.WalkAgrees` | src/defaultconf/bsdroute.py:143-173 | walks with two readers that fail alike, move alike and differ at most on link-layer sockaddrs fail alike, and otherwise end at the same cursor with the same kinds and the same sockaddrs except link-layer ones |
| `RouteSocket.WalkAsWritten` | src/defaultconf/bsdroute.py:143-173 | the walk with the code's reader and the walk with the intended reader over the eight kinds stand in that relation |
| `RouteSocket.WalkFinds` | src/defaultconf/bsdroute.py:143-173 | a successful walk with the intended reader over the eight kinds finds one well-formed sockaddr for each wanted kind, and for no other |
| `RouteSocket.WalkMoves` | src/defaultconf/bsdroute.py:143-173 | that walk ends at the start plus the `SA_SIZE`s of what it found, a whole number of longs past the start and at least one long per sockaddr |
| `RouteSocket.RtmAddrsAsWritten` | src/defaultconf/bsdroute.py:143-173 | the walk of the code succeeds exactly when the intended walk does; it then finds exactly the wanted kinds, binds the same sockaddrs except link-layer ones, and ends at the same cursor, the start plus the `SA_SIZE`s of the sockaddrs read |
| `RouteSocket.GetRtmAddrs` | src/defaultconf/bsdroute.py:143-173 | the loop over the eight kinds in order, reading a sockaddr for each bit set in the mask with `ReadSockaddr` and stopping at the first error, computes exactly the walk of the code |
| `RouteSocket.SockaddrAddr` | src/defaultconf/bsdroute.py:223-226 | an INET or INET6 sockaddr yields a valid address of its family; a link sockaddr yields none |
| `RouteSocket.DecimalRoundTrip` | src/defaultconf/bsdroute.py:220-221 | the decimal text of the interface index reads back as the index |
| `RouteSocket.ColonHexRoundTrip` | src/defaultconf/bsdroute.py:218-219 | the colon-separated two-digit hex of a byte string reads back as that byte string |
| `RouteSocket.CString` | src/defaultconf/bsdroute.py:217-219 | a `c_char` array field yields its bytes before the first NUL |
| `RouteSocket.StrSockaddrDlAsWritten` | src/defaultconf/bsdroute.py:215-222 | as written: fails exactly when name length, address length and index are all zero; the hex shown is of the address cut at its first zero byte |
| `RouteSocket.LinkAddressTruncatedAtZero` | src/defaultconf/bsdroute.py:218-219 | as written, the hardware address 02:00:00:00:00:01 prints as "02"; as intended it prints in full |
| `RouteSocket.StrSockaddrDl` | src/defaultconf/bsdroute.py:215-222 | as intended: the name when one is present, else the full hardware address in hex, which reads back as the address, else `link#` and an index that reads back; fails exactly when all three are absent |
| `RouteSocket.RaisedMembers` | src/defaultconf/bsdroute.py:229-233 | a flag is named exactly when it is in the table and shares a bit with `n` |
| `RouteSocket.NoneRaised` | src/defaultconf/bsdroute.py:229-234 | no flag is named exactly when no flag of the table shares a bit with `n`, in particular for `n == 0` |
| `RouteSocket.SplitJoin` | src/defaultconf/bsdroute.py:234 | `'|'.join` of one or more words free of `'|'` splits back into those words |
| `RouteSocket.RtmFlagNames` | src/defaultconf/bsdroute.py:68-90 | every name of the routing-flag table is non-empty and free of `'|'` |
| `RouteSocket.StrFlags` | src/defaultconf/bsdroute.py:229-234 | the loop joins the names of the flags set in `n`, in table order; `n == 0` gives ""; the text is empty exactly when no flag is set, and otherwise splits back into exactly the names of the flags set |
| `Cli.ValidateProtocol` | src/defaultconf/defaultconf.py:22-26 | succeeds exactly for `static`, `dhcp`, `ppp` and `ra`, and refuses any other protocol, naming it |
| `Cli.ParseAf` | src/defaultconf/defaultconf.py:181-186 | succeeds exactly for "ip" and "ip6" |
| `Cli.ParseAfRoundTrip` | src/defaultconf/defaultconf.py:181-186 | "ip" gives IPv4 and "ip6" gives IPv6, and each family has exactly one accepted spelling |
| `Cli.OptionalAf` | src/defaultconf/defaultconf.py:236 | an absent `-f` selects every family; a present one must parse |
| `Cli.EffectRefusals` | src/defaultconf/defaultconf.py:225-249 | an action is refused exactly for an unknown protocol or family; `remove` without `-f` is refused |
| `Cli.AddRegisters` | src/defaultconf/defaultconf.py:225-230 | after `add` the gateway is registered as the only one with its key, and the same `add` again changes nothing |
| `Cli.Run` | src/defaultconf/defaultconf.py:225-249 | checks first, then the state update of the action; a refused action changes nothing; the result says whether the state changed, the condition for saving it and signalling the daemon |
| `Cli.GetDefault` | src/defaultconf/defaultconf.py:235-241 | refused exactly for an unknown family; otherwise nothing is reported exactly when nothing is selected, and what is reported is selected, in the best bucket, and the newest there |

## Left out

- Sockets, netlink message encoding and decoding, `dump_*`, `do_route`, `monitor_nl`, and reading routing messages (`pf_route_process`). They are kernel I/O; a notification arrives as its type and decoded record, and a route request leaves as a `RouteCall` value.
- `if_nametoindex`: a kernel query, passed to `Daemon.NormalizeDefault` as the function `ifIndex`.
- Threads, queues, locks, the `Trigger` semaphore, signal handlers and the daemon's monitor loop. The loop runs `normalize_default` for IPv4, then for IPv6, and logs any exception of either. The model decides one family at a time.
- The state and configuration files (JSON, YAML, file lock), `try_signal_daemon` and every argparse `main`. `Cli.Run` reports whether the state changed; the code saves the state and signals the daemon on that condition.
- `Cli.Run` compares the state as sets. The code compares JSON dumps whose list order follows set iteration, which the model does not fix.
- `time.time()`: the registration time is a parameter, and a natural number rather than a float.
- `ipaddress` parsing and printing: addresses are abstract values. `str_sockaddr` of an INET or INET6 sockaddr is modelled up to the address value (`RouteSocket.SockaddrAddr`), not its text.
- `RouteSocket.StrSockaddrDl`: `.decode()` of the interface name is modelled as one character per byte, not as UTF-8 decoding.
- `get_rtm_addrs` logs a warning when a sockaddr is longer than its structure; logging is not modelled.
- The order of equal-`ts` gateways within a bucket follows Python's set iteration; the model leaves it unspecified.
- `str_flags` with `IFM_FLAG`: that table is not defined in `src/defaultconf/bsdroute.py` or the modules it imports, so only the routing-flag table `RTM_FLAG` is given. `RTF_LLDATA` shares the value of `RTF_LLINFO`, so Python's enumeration skips it as an alias.
- The second copy of the registry in `src/defaultconf/defaultconf.py` is modelled once, by `Registry`; it differs only in the field name `iface`.
- `RouteSocket.WalkFinds`: states well-formedness for the walk with the intended reader only; in the code's walk a link-layer sockaddr within 54 bytes of the end holds the message's first bytes, which need not be well formed (`RouteSocket.RtmAddrsAsWritten` gives what carries over).
- `RouteSocket.WalkMoves`: stated for the walk with the intended reader; the code's walk ends at the same cursor (`RouteSocket.RtmAddrsAsWritten`), but the `SA_SIZE` sum is taken over the intended sockaddrs, whose length bytes are the ones the code's cursor moves by.
- `Daemon.NormalizeDefault`: the route calls are not performed. `Daemon.Calls` gives the requests the decision stands for, and `Daemon.ApplyCall` gives the kernel's answer: an exclusive create, and an exact delete.

## Findings

| source | as written | input that shows it | evidently intended | confidence | as-written member | corrected member |
|---|---|---|---|---|---|---|
| src/defaultconf/daemon.py:86 | the update branch calls `bsdnetlink.add_route`, which does not exist; the delete on line 85 has already been sent, `AttributeError` is raised and then logged (lines 139-140) | a current default through 10.0.0.1 and a chosen gateway 10.0.0.2 | `bsdnetlink.new_route`, which adds the new default after the delete | not executed | `Daemon.ReplaceAsWrittenDropsDefault` | `Daemon.ReconcileConverges` |
| src/defaultconf/daemon.py:53 | `route.dst` is an `ip_network` (`src/defaultconf/bsdnetlink.py:216`), which has no `network` attribute, so the route loop raises `AttributeError` on its first route; the lazy `filter` lets it out of `normalize_default`, and the monitor logs it (lines 137-140), so nothing is changed for that family and lower-ranked gateways are not tried | a `ppp` gateway 192.0.2.1 on an up link with index 5, whose only address is 10.1.1.1/32 and which carries the route 0.0.0.0/0 | test containment in `route.dst` | not executed | `Daemon.RouteTestRaises` | `Daemon.DefaultTestIntended` |
| src/defaultconf/bsdroute.py:136-141 | when fewer than `sz` bytes remain, the whole source is copied to offset 0 and offset 0 is returned, so the link-layer sockaddr is read from the start of the message | a 100-byte message with a link-layer sockaddr at byte 92 (`sz` = 54) | copy the source from `offset` on into the padded buffer | not executed | `RouteSocket.EnsureBufferLosesOffset` | `RouteSocket.EnsureBufferAt` |
| src/defaultconf/bsdroute.py:218-219 | `sdl_data` is a `c_char` array, and reading it yields bytes only up to the first NUL, so a hardware address containing a zero byte prints cut short | a link sockaddr with no name and hardware address 02:00:00:00:00:01, printed as "02" | hex of all `sdl_alen` bytes | not executed | `RouteSocket.LinkAddressTruncatedAtZero` | `RouteSocket.StrSockaddrDl` |
