# Lightpath admission control in an elastic optical network

This project models the admission controller of a small elastic optical
network simulator. The controller keeps two tables. One gives each node's free
transmitters and free receivers. The other says, for every fiber, which of its
10 spectrum slots are free. Three operations act on the tables:

- **Admission** of a lightpath request. Find the fibers of the request's route
  and the candidate slot indices. Narrow the candidates to one contiguous block
  with the best-gap policy. Check that the source has a free transmitter and the
  destination a free receiver. Then mark the slots busy on every fiber of the
  route and use one transmitter and one receiver.
- **Release** of the requests whose time is up. Free their slots and give their
  transmitter and receiver back.
- **Reset**, triggered by the generator's end marker (`put(None)`).

The same controller exists in three versions:

- `v3.0/components/light_path_control.py`, split into helpers;
- `unicv-version/components/light_path_control.py`, written inline;
- `elastic-optical-network.py`, the script version. It starts nodes with 6
  transceivers, resets them to 4, and records a 0 or a 1 per decided request.

`LightPathControl.Control` models all three. Its start and reset transceiver
counts are constructor parameters: 10 and 10 for the first two versions, 6 and
4 for the script. `ElasticNetwork.Elastic` wraps the controller with the
script's constants and its blocking record.

The spectrum policies live in `Spectrum`. First fit returns the earliest window
of `n` consecutive integers of the sorted candidates. The run-based best gap
returns the first maximal run of consecutive candidates whose length is the
least among the runs of at least `n`. `WindowSlots` holds the stand-alone
helpers of `uva-version/checkSlots.py`. Their first fit is the same code as the
controller's, so it is `Spectrum.FirstFit`; only their window-based "best gap"
is new, and it is proved to always equal first fit. `DashNetwork` models the
`Network` class of the two Dash front ends. It keeps a map from each link to a
list of slot flags, allocates on the first link of a path that has room, and
releases slots on every link of a path.

Properties proved:

- **Conservation invariant `Control.Valid`.** A slot is busy exactly when an
  active request holds it, no two active requests hold the same slot, and a
  node's free transmitter (receiver) count plus the active requests leaving
  (entering) it equals the constant last set by the constructor or by a reset,
  and no count is ever negative. Every operation keeps it.
- **Admission.** It is all or nothing. Either the first `nslots` chosen
  channels are taken on every fiber of the route and the two transceiver
  counts drop by one, or nothing changes. It happens exactly when channels
  were found, at least one slot is asked for, and both end nodes have a
  transceiver left.
- **Release.** It follows the source's walk of the list it deletes from, so a
  request right after a deleted one stays until a later call. Only requests
  that ended strictly before `now` are released, and each exactly once.
- **Spectrum policies.** Both are characterised against independent
  definitions (earliest fit, the run decomposition, the shortest long run) and
  evaluated on the sample list of the source.

Routing is an input. A route is a path of node ids in `1..nodes` whose
consecutive nodes are joined by an edge. Request times are `real`s.

## Model

| member | source | states |
|---|---|---|
| Spectrum.Range | v3.0/components/light_path_control.py:233 | `list(range(lo, hi))`: `hi - lo` elements (none when `hi <= lo`), the `i`-th being `lo + i` |
| Spectrum.IsRangeIffConsecutive | v3.0/components/light_path_control.py:233 | on an ascending non-empty window, "equals `range(min, max + 1)`" holds exactly when each element is one more than the previous |
| Spectrum.Sort | v3.0/components/light_path_control.py:228 | `sorted(l)` is ascending and a permutation of `l` |
| Spectrum.SortIgnoresOrder | uva-version/checkSlots.py:2 | two lists with the same elements sort to the same list |
| Spectrum.FirstFitFrom | v3.0/components/light_path_control.py:229-236 | the loop of `checkSlotsFirstFit` from position `i`: `[]` once fewer than `n` elements remain, the window when it is `n` consecutive integers, otherwise the next position; `FirstFitFromSpec` states what it returns |
| Spectrum.FirstFit | v3.0/components/light_path_control.py:228-236 | first fit on the sorted list; `FirstFitSpec` characterises it |
| Spectrum.FirstFitFromSpec | v3.0/components/light_path_control.py:229-236 | the scan from position `i` returns `[]` exactly when no window from `i` on is `n` consecutive integers, and otherwise returns the earliest such window |
| Spectrum.FirstFitSpec | v3.0/components/light_path_control.py:228-236 | first fit returns `[]` exactly when the sorted list has no window of `n` consecutive integers, and otherwise the earliest one, of length `n` and consecutive |
| Spectrum.FirstFitIgnoresOrder | uva-version/checkSlots.py:1-10 | first fit does not depend on the order of its input |
| Spectrum.CheckSlotsFirstFit | elastic-optical-network.py:236-245 | the loop with its early returns computes first fit |
| Spectrum.Runs | v3.0/components/light_path_control.py:249-266 | the split of a list into maximal runs of consecutive integers, in order; `RunsSplit` and `RunsUnique` characterise it |
| Spectrum.LongRuns | v3.0/components/light_path_control.py:249-266 | the runs of length at least `n_slot`, in order: what the scan collects into `sublistas` |
| Spectrum.RunsSplit | v3.0/components/light_path_control.py:251-265 | the runs of a list concatenate back to it, each run is non-empty and consecutive, and adjacent runs do not join up |
| Spectrum.RunsUnique | v3.0/components/light_path_control.py:251-265 | any split of a list into maximal consecutive runs is `Runs` of it |
| Spectrum.BestGap | v3.0/components/light_path_control.py:238-274 | best gap on the sorted list, for `n_slot > 1` (the only values `allocate` passes): the first of the shortest runs of at least `n_slot`, `[]` when there is none; `BestGapSpec` characterises it. For `n_slot <= 1` the source differs, see `Spectrum.CollectRuns` under "## Left out" |
| Spectrum.BestGapSpec | v3.0/components/light_path_control.py:238-274 | best gap is `[]` exactly when every maximal run is shorter than `n_slot`; otherwise it is such a run, consecutive, of length at least `n_slot`, no longer than any other run of at least `n_slot`, and the first of that length |
| Spectrum.CollectRuns | elastic-optical-network.py:250-269 | the scan with its `try`/`except` end case, including the `lista[i - 1]` look-back that wraps to the last element at `i = 0`, collects exactly the maximal runs of length at least `n_slot`, in order |
| Spectrum.PickShortest | elastic-optical-network.py:271-278 | the `while True` loop terminates and returns the first collected run of the least length, or `[]` when none was collected |
| Spectrum.CheckSlotsBestGap | unicv-version/components/light_path_control.py:129-155 | the whole method computes best gap for `n_slot > 1` |
| Spectrum.SampleRuns | elastic-optical-network.py:250-269 | the runs of `[0,2,3,4,5,7,8,9,12,20,21,22]` are `[0]`, `[2..5]`, `[7..9]`, `[12]`, `[20..22]` |
| Spectrum.FirstFitOnSample | uva-version/checkSlots.py:26-30 | first fit of 3 slots on the sample list is `[2,3,4]` |
| Spectrum.BestGapOnSample | elastic-optical-network.py:247-278 | best gap of 3 slots on the sample list is `[7,8,9]` |
| WindowSlots.WindowScan | uva-version/checkSlots.py:15-22 | the loop of the window-based best gap from position `i` with the window kept so far: it stops at a short window and keeps a consecutive window when none is kept or its spread is strictly smaller |
| WindowSlots.WindowBestGap | uva-version/checkSlots.py:12-23 | the window-based best gap on the sorted list, `[]` when no window was kept; `WindowBestGapIsFirstFit` proves it equals first fit |
| WindowSlots.RangeSpread | uva-version/checkSlots.py:19-21 | a window that is a range of consecutive integers spreads over exactly its length minus one |
| WindowSlots.KeptWindowStays | uva-version/checkSlots.py:20-22 | once a window of `n` consecutive integers is kept, the strict `<` never replaces it |
| WindowSlots.ScanMatchesFirstFit | uva-version/checkSlots.py:15-23 | the window-based scan from `i` with nothing kept returns what first fit's scan from `i` returns |
| WindowSlots.WindowBestGapIsFirstFit | uva-version/checkSlots.py:12-23 | the window-based best gap equals first fit for every `n >= 1` |
| WindowSlots.WindowBestGapIgnoresOrder | uva-version/checkSlots.py:13 | the window-based best gap does not depend on the order of its input |
| WindowSlots.HelpersOnSample | uva-version/checkSlots.py:26-31 | both helpers return `[2,3,4]` for 3 slots on the sample list |
| Requests.End | elastic-optical-network.py:16-24 | a request carries its id, source, destination, start time, duration and slot count, and ends at `time + duration` (`fim`) |
| Requests.Kept | v3.0/components/light_path_control.py:69-72 | what one walk of `remove(now)` leaves in the list it deletes from: an expired request goes and the request right after it stays unexamined |
| Requests.Released | v3.0/components/light_path_control.py:69-72 | the requests that walk deletes, in order |
| Requests.SweepSplits | v3.0/components/light_path_control.py:70-72 | one walk of `remove(now)` splits the active list: every request is kept or released, never both and never twice |
| Requests.SweepReleasesExpired | v3.0/components/light_path_control.py:70-72 | a released request ended strictly before `now`, and a request ending at or after `now` is kept |
| Requests.SweepCounts | v3.0/components/light_path_control.py:73-74 | per node, the requests kept plus those released leaving (entering) it are those of the old list |
| Requests.SweepBusy | v3.0/components/light_path_control.py:75-76 | with no slot held twice, the slots of the kept and of the released requests are disjoint and make up those of the old list, and the kept list still holds no slot twice |
| Requests.SkipExample | v3.0/components/light_path_control.py:70-72 | of two expired requests one walk releases only the first; a second walk releases the other |
| LightPathControl.IndexOf | v3.0/components/light_path_control.py:125 | `edges.index(e)` is the first position holding `e` |
| LightPathControl.EdgeIndices | v3.0/components/light_path_control.py:122-128 | one fiber index per hop; the `i`-th is the first edge equal to the hop, forward when that pair is an edge and reversed otherwise |
| LightPathControl.EdgeIndicesDistinct | unicv-version/components/light_path_control.py:68-72 | on a path that visits no node twice, no fiber index repeats |
| LightPathControl.Assignment | v3.0/components/light_path_control.py:166-171 | the `slot_used` list: the channels taken on the first fiber of `index`, then on the second, and so on |
| LightPathControl.AssignmentLength | v3.0/components/light_path_control.py:166-173 | `slot_used` of an admission has `len(index) * num_slots` entries |
| LightPathControl.AssignmentMembers | v3.0/components/light_path_control.py:166-173 | a slot is in `slot_used` exactly when its fiber is on the route and its channel is among those taken |
| LightPathControl.AssignmentDistinct | v3.0/components/light_path_control.py:166-173 | with no repeated fiber and no repeated channel, `slot_used` names no slot twice |
| LightPathControl.ColumnFree | v3.0/components/light_path_control.py:143 | a slot column is held on no fiber of the network |
| LightPathControl.FreeColumnsFor | v3.0/components/light_path_control.py:141-143 | the columns held on no fiber, ascending, from the set of slots in use |
| LightPathControl.FreeOnFiberFor | v3.0/components/light_path_control.py:145 | the slots of one fiber not in use, ascending |
| LightPathControl.CandidatesFor | v3.0/components/light_path_control.py:141-146 | `get_available_channels` computed from the set of slots in use rather than from the table |
| LightPathControl.ChosenFor | v3.0/components/light_path_control.py:99-103 | the channels `allocate` hands on, computed from the slots in use: there are at least `num_slots` of them unless there are none |
| LightPathControl.FreeColumnsForSpec | v3.0/components/light_path_control.py:141-143 | the columns listed are ascending and exactly those below the bound that no fiber has in use |
| LightPathControl.FreeOnFiberForSpec | v3.0/components/light_path_control.py:145 | the slots listed are ascending and exactly those of the fiber below the bound that are not in use |
| LightPathControl.CandidatesForSpec | v3.0/components/light_path_control.py:141-146 | candidates are ascending slot indices; on more than one hop a column is one exactly when no fiber of the network has it in use, on one hop exactly when the route's fiber does not |
| LightPathControl.Admits | v3.0/components/light_path_control.py:44-53 | whether `put` admits a request once the requests still active are known: channels are chosen, at least one slot is asked for, and both end nodes have a transceiver no active request uses |
| LightPathControl.AdmitsIffRoom | v3.0/components/light_path_control.py:99-106 | a request asking for no slot is never admitted; one asking for one slot is admitted exactly when some candidate channel is free and both end nodes have a transceiver left; one asking for more exactly when some maximal run of free candidates is that long and both ends have a transceiver left |
| LightPathControl.NarrowedWithin | v3.0/components/light_path_control.py:102-103 | the channels kept after narrowing come from the candidates, do not repeat, number at least `num_slots` unless there are none, and are consecutive when more than one slot is asked for |
| LightPathControl.Control.constructor | v3.0/components/light_path_control.py:10-30 | every tx and rx count is the start value, every slot is free, both request lists are empty, and the invariant holds |
| LightPathControl.Control.Accounts | v3.0/components/light_path_control.py:29-30 | for an active list: a slot is busy exactly when a request of the list holds it, no slot is held twice, and each node's free tx (rx) count plus the requests leaving (entering) it is the constant, never negative |
| LightPathControl.Control.Valid | v3.0/components/light_path_control.py:73-76 | the conservation invariant for the active list, which `remove` and `allocate_slots` keep |
| LightPathControl.Control.FreeColumns | v3.0/components/light_path_control.py:141-143 | the slot columns free on every fiber of the network, ascending |
| LightPathControl.Control.FreeOnFiber | v3.0/components/light_path_control.py:145 | the free slots of one fiber, ascending |
| LightPathControl.Control.AvailableChannels | v3.0/components/light_path_control.py:141-146 | `get_available_channels`: the free columns on a route of more than one hop, the free slots of its fiber on one hop |
| LightPathControl.Control.FreeColumnsSpec | v3.0/components/light_path_control.py:141-143 | the free columns are ascending, without repeats, and a column is listed exactly when it is free on every fiber of the network |
| LightPathControl.Control.FreeOnFiberSpec | v3.0/components/light_path_control.py:145 | the free slots of one fiber are ascending, without repeats, and a slot is listed exactly when it is free |
| LightPathControl.Control.AvailableChannelsSpec | v3.0/components/light_path_control.py:141-146 | candidates are ascending; on a route of more than one hop a column is a candidate exactly when it is free on every fiber of the whole network, on one hop exactly when it is free on that fiber |
| LightPathControl.Control.Chosen | v3.0/components/light_path_control.py:99-103 | the channels handed to `allocate_slots` number at least `num_slots` unless there are none |
| LightPathControl.Control.ChosenFits | unicv-version/components/light_path_control.py:74-83 | the chosen channels are slot indices, free on every fiber of the route, without repeats, consecutive when more than one slot is asked for |
| LightPathControl.Control.ChosenFromBusy | v3.0/components/light_path_control.py:99-103 | under the invariant, the channels chosen from the slot table are those chosen from the slots the active requests hold |
| LightPathControl.Control.FreeColumnsFromBusy | v3.0/components/light_path_control.py:141-143 | under the invariant, the columns free in the table are those no active request holds on any fiber |
| LightPathControl.Control.FreeOnFiberFromBusy | v3.0/components/light_path_control.py:145 | under the invariant, the free slots of a fiber in the table are those no active request holds on it |
| LightPathControl.Control.ChosenFree | elastic-optical-network.py:184-197 | under the invariant, no active request holds a chosen channel on any fiber of the route |
| LightPathControl.Control.Allocate | v3.0/components/light_path_control.py:83-109 | with no channel left it returns `(False, [], path)` and changes nothing; otherwise it admits exactly when at least one slot is asked for and both transceiver counts are positive, taking the first `num_slots` chosen channels on every fiber of the route |
| LightPathControl.Control.AllocateSlots | v3.0/components/light_path_control.py:148-181 | all or nothing: either `slot_used` is every route fiber with the first `num_slots` channels, those slots become busy and the source's tx and the destination's rx drop by one, or it returns `(False, [])` with nothing changed |
| LightPathControl.Control.TakeSlots | unicv-version/components/light_path_control.py:88-95 | the nested loops take the first `num_slots` channels on every fiber of `index` when the counts allow it, and nothing otherwise; only the slots taken change |
| LightPathControl.Control.TakeOnFiber | v3.0/components/light_path_control.py:167-173 | on one fiber, `num_slots` rounds of the innermost loop take the first `num_slots` channels, or nothing when the counts do not allow it |
| LightPathControl.Control.TakeFirstFree | v3.0/components/light_path_control.py:168-173 | the innermost loop takes the first channel still free on the fiber, only when both counts are positive, and changes no other slot |
| LightPathControl.Control.Release | v3.0/components/light_path_control.py:69-77 | the active list becomes `Kept` of the old one; each node's tx (rx) count grows by the released requests leaving (entering) it; exactly the released requests' slots become free; the invariant holds |
| LightPathControl.Control.Drop | elastic-optical-network.py:140-149 | releasing one active request removes it from the list and keeps the invariant |
| LightPathControl.Control.FreeSlots | elastic-optical-network.py:147-149 | exactly the slots the request holds become free |
| LightPathControl.Control.ReleaseAccounts | v3.0/components/light_path_control.py:72-76 | freeing a request's slots and returning its transceivers keeps the invariant for the list without it |
| LightPathControl.Control.Reset | v3.0/components/light_path_control.py:78-81 | the active list is empty, every tx and rx count is the reset value, every slot is free, and the invariant holds with the reset value as the new constant |
| LightPathControl.Control.Remove | unicv-version/components/light_path_control.py:41-56 | with a time it releases what has expired; with none it resets |
| LightPathControl.Control.Put | v3.0/components/light_path_control.py:32-58 | `None` resets; with `debug` off a request changes nothing; otherwise expired requests are released first (the active list becomes `Kept`), the channels chosen are `ChosenFor` of the slots the kept requests hold, and the request is admitted exactly when they are not empty, at least one slot is asked for, and both end nodes have a transceiver free once the kept requests are counted; admitted, it joins the active list holding the first `num_slots` chosen channels on every fiber of the route, blocked, it joins the lost list |
| LightPathControl.Control.Admit | unicv-version/components/light_path_control.py:25-34 | the channels chosen are those `Chosen` gives before the call; the request is admitted exactly when they are not empty, it asks for a slot and both counts are positive, and then joins the active list holding the slots taken, or else joins the lost list with nothing else changed; the invariant holds |
| LightPathControl.Control.AllocateFor | v3.0/components/light_path_control.py:44-48 | the invariant holds afterwards for the list with the admitted request added, or for the list unchanged when it is blocked |
| LightPathControl.Control.UnchangedAccounts | v3.0/components/light_path_control.py:105-106 | a blocked allocation keeps the invariant |
| LightPathControl.Control.AdmissionAccounts | elastic-optical-network.py:203-216 | taking free slots and one transceiver at each end keeps the invariant for the list with the request added |
| ElasticNetwork.BlockedSnoc | elastic-optical-network.py:110-120 | recording one more outcome adds a blocked request exactly when the outcome is 1 |
| ElasticNetwork.Elastic.constructor | elastic-optical-network.py:86-96 | 6 transmitters and receivers per node, every slot free, reset value 4, nothing recorded |
| ElasticNetwork.Elastic.Put | elastic-optical-network.py:98-128 | a request leaves the transceiver constant unchanged; a decided one records 0 exactly when `Admits` holds at that constant for the requests left after the release, and then joins the active list holding the first `nslots` channels of `ChosenFor` on every fiber of the route; otherwise it records 1 and joins the lost list; `None` resets to 4 transceivers and records nothing; the 1s always count the lost requests |
| DashNetwork.Key | v3.0/app.py:17-21 | `graph[u][v]` and `graph[v][u]` name the same link |
| DashNetwork.FreeIndices | v3.0/app.py:29 | the indices of the free slots of a link, in order |
| DashNetwork.FreeBelowSpec | v3.0/app.py:29 | the free indices are ascending and listed exactly when the slot is free |
| DashNetwork.Take | v3.0/app.py:29 | the slice `[:num_slots]`, including Python's reading of a negative bound |
| DashNetwork.TakeLength | v3.0/app.py:29-30 | the slice `[:n]` has exactly `n` elements exactly when `0 <= n <= len`, and holds only elements of the list |
| DashNetwork.Mark | v3.0/app.py:31-32 | the slot list with every listed index set to the given value; it keeps its length |
| DashNetwork.MarkTwice | v3.0/app.py:40-41 | setting the same slots to the same value twice is setting them once |
| DashNetwork.MarkRestores | v3.0/app.py:31-32 | marking free slots busy and then free restores the slot list |
| DashNetwork.FirstRoomy | v3.0/app.py:25-30 | the first hop from position `i` on whose link `num_slots` free slots are found, or none; the hop found is at or after `i` and on the path |
| DashNetwork.FirstRoomySpec | v3.0/app.py:25-30 | the hop found is the first whose link has at least `num_slots` free slots; there is none exactly when no hop qualifies or `num_slots` is negative |
| DashNetwork.FreeOn | v3.0/app.py:38-41 | `release_slots` on the link map: the listed slots become free on the given links; the set of links is unchanged |
| DashNetwork.FreeOnTwice | v4.0/app.py:37-42 | releasing the same slots on the same path twice is releasing them once |
| DashNetwork.AllocateThenRelease | v4.0/app.py:24-42 | after an allocation on a link, releasing those slots on a path through it restores that link |
| DashNetwork.Network.constructor | v3.0/app.py:11-21 | exactly the six links, each with ten free slots |
| DashNetwork.Network.AllocateSlots | v3.0/app.py:23-34 | on the first hop with enough free slots, the lowest `num_slots` free indices are taken and returned, ascending, and no other link changes; with no such hop it returns `None` and changes nothing |
| DashNetwork.Network.FindRoomy | v4.0/app.py:26-31 | the search loop finds the first hop whose link has room |
| DashNetwork.Network.TakeLowest | v4.0/app.py:30-33 | the lowest `num_slots` free slots of one link become busy, and nothing else changes |
| DashNetwork.Network.ReleaseSlots | v4.0/app.py:37-42 | the given slots become free on every link of the path, and nothing else changes |
| DashNetwork.Network.SetSlots | v4.0/app.py:32 | the given slots of one link take the given value, and nothing else changes |

## Left out

- The SimPy environment, the request generators, the packet sink and the statistics. The clock reading `env.now` is a parameter of `put`.
- `networkx.shortest_path` and the graph builders. The route is a parameter. It must start at the source, end at the destination, visit no node twice, and join consecutive nodes by an edge.
- A request whose source is its destination. The one-node route makes the source raise an `IndexError` in `get_available_channels`; the model requires a route of at least one hop.
- All rendering: `tabulate`, `display_resources`, the ANSI prints, the `tab` flag, the plots and the Dash callbacks.
- Node id 0. The model takes node ids in `1..nodes`, so the wrap of `txrx[-1]` to the last row is not modelled.
- The sort in `remove(None)`. It only orders the goodbye messages before the list is cleared.
- The `allocation_algorithm=` argument of the runner scripts. The controller hard-wires best gap.
- `LightPathRequest.fim` is `Requests.End`, computed on demand rather than stored.
- Floating point. Times are `real`s, so rounding of `time + duration` is not modelled.
- In-place mutation of the request object. `put` sets `pkt.slot_used` on the caller's object; the model stores an updated copy in the active list.
- Spectrum.FirstFit: requires `n >= 1`. On an empty list the source returns `[]` for any `n`. With `n == 0` on a non-empty list it raises on `min` of an empty slice. With a negative `n` the slice `l[i:n+i]` drops the tail instead, so it can return a window of another length: `n = -1` on `[1, 2, 3]` gives `[1, 2]`. No controller calls first fit: `allocate` in v3.0 (line 103) and in unicv-version (line 83) always uses best gap, and the call at elastic-optical-network.py:196 is commented out. Its only caller is the sample at uva-version/checkSlots.py:30, with 3.
- Spectrum.CollectRuns: requires `n_slot > 1`. For smaller `n_slot` the scan does not collect the runs. With `n_slot == 1` a candidate with no neighbour is never recorded. With `n_slot <= 0` empty lists are recorded at every break. `allocate` only calls best gap when `num_slots > 1`.
- Spectrum.CheckSlotsBestGap: requires `n_slot > 1`, for the same reason as `CollectRuns`.
- DashNetwork.Network.ReleaseSlots: requires slot indices in `0..9`. Python would also accept `-10..-1`, counting from the end of the list, and raises for anything else.
- LightPathControl.Control.Put and LightPathControl.Control.Admit: also return whether the request was admitted, and the channels chosen as a ghost value. The source returns nothing.
- The search-then-update and per-loop helper methods (`Drop`, `FreeSlots`, `TakeSlots`, `TakeOnFiber`, `TakeFirstFree`, `AllocateFor`, `FindRoomy`, `TakeLowest`, `SetSlots`) split the source's nested loops without changing what they do.
