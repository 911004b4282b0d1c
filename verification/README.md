# Azure Linux Agent: verified model of its state-keeping protocols

The agent drives external commands that may fail at any point and keeps its decisions in files, chains
of firewall rules and in-memory tables. This project models the parts that must stay coherent through such
failures, and proves what they keep over whole runs:

- **Agent update** (`GuestAgents`, `UpdateProtocol`, `UpdateTheorems`, `AgentSurvival`, `AgentUpdateHandler`): self-update and
  RSM update with their marker files, attempt counters, blacklisting, purging, and the daemon's next launch.
- **Extension handlers** (`HandlerProtocol`, `HandlerTheorems`, `MultiConfigTheorems`, `MultiConfigRuns`, `MultiConfigRequests`,
  `ExtHandlers`, `ExtensionProcessing`): install,
  update, enable, disable and uninstall of handler versions, multi-config extensions, and the
  dependency-ordered loop above them.
- **Firewall** (`FirewallRules`, `FirewallTheorems`, `FirewallReports`, `EnableFirewall`): check, remove and setup
  of three ordered iptables rules, and the limiter on reports.
- **Soft lockups** (`SoftLockup`, `SoftLockupTheorems`, `LockupCounting`, `SoftLockupMonitor`): bounded capture of stack traces,
  per-CPU aggregates and the timestamp watermark.
- **DHCP responses** (`Bits`, `Dhcp`, `DhcpTheorems`): the option walk, addresses and classless routes.
- **Telemetry queue** (`Telemetry`, `TelemetryTheorems`, `TelemetryHandler`): producers, one worker, stop and
  restart as interleaved atomic steps.
- **Memory restarts** (`RestartHistory`, `RestartTheorems`, `RestartLimit`, `AgentMemoryRestartHistory`): the restart guard, the
  record and its pruning.
- **Data contracts** (`DataContract`, `DataContractTheorems`): objects written out as plain data and read back.

`Sorting` holds the stable sort by a key that agent update, extension processing and restart history share.

Each component has three layers. A module of functions says what an operation does to the state, with the
outcome of every external action as a parameter. A theorems module proves what holds over all runs, for all
outcomes. A module with classes and loops in the form of the source is proved equal to the functions. Every
lemma switches automatic induction off, so each induction is written out.

## Assumptions and findings

Versions are integers with canonical directory names. Command outcomes, clocks, random draws, packages and
policy decisions are parameters; nothing is assumed of them unless a `requires` says so. State files of
handlers and marker files are assumed to be written.

Some properties one would expect do not hold of the code. For each, a lemma shows the failure or says exactly
when the property holds, or both:

- An `iptables -D` that exits with 1 while the rule is there ends the delete loop quietly, and so do 99 tries
  with codes other than 0, 1 and 2 (`DeleteLeavesRuleExactlyWhen`); setup then appends a second copy
  (`StuckDeleteBreaksOrder`). The order is safe exactly when deletes that fail exit with 2 (`OrderHoldsExactlyWhen`;
  for given commands `OperationKeepsOrderExactlyWhen`, `RunKeepsOrderExactlyWhen`).
- A failed removal of the old handler directory is only logged, and two versions end up installed
  (`UpdateIsSafeExactlyWhen`, and for whole runs `RunIsSafeExactlyWhen`).
- A multi-config handler gets out of step with its extensions in four ways. Disabling an extension when the goal
  state does not list another enabled one (`DisableKeepsStepExactlyWhen`). Enabling the handler without settings,
  which the goal state may ask for (`BareEnableKeepsStepExactlyWhen`). Installing a version whose directory still
  records an enabled extension, as a failed downgrade with `continueOnUpdateFailure` leaves it
  (`FailedDowngradeKeepsExtension`, `ReinstallCanBreakStep`, `InstallStaysInStepExactlyWhen`). An update or uninstall
  that fails after disabling the enabled extensions the goal state lists, when it does not list all of them
  (`RequestStaysInStepExactlyWhen`). For whole runs: `MomentsAreInStepExactlyWhen`, `HandlerStaysInStepExactlyWhen`.
- The limit of three exits per version counts in the version's directory and is lost with it. A malformed manifest
  is deleted on load (`MalformedPackageExitsForever`, `ExitKeepsDirectoryExactlyWhen`). Purging before an exit to
  another version deletes it too, so three versions requested in turn exit for ever although every package loads
  and every count is saved (`PurgeCycleExitsForever`). `EventLosesExactlyWhen` says which events drop a directory.
- The RSM updater goes on using the first manifest it fetched (`RsmUsesItsFirstManifest`).
- The watermark of the soft-lockup scan is forgotten at a restart when the boot ID is unknown at either start, the
  save failed, which the source swallows, or the file cannot be read; lines are then counted again, but
  none is missed (`RestartForgetsExactlyWhen`, and for all runs `CountedOnceExactlyWhen`).
- A producer overtaken by stop and exit leaves an accepted event in the queue (`LatePutIsLeftBehind`), although a
  comment in the source says that the worker drains the queue before it exits. The exit is final exactly when no
  producer is between its test and its put (`ExitIsFinalExactlyWhen`).
- Pruning can forget a version, which may then restart beyond its limit (`ForgottenVersionRestartsAgain`), although
  the configuration documents the limit as per version: it holds exactly for at most three versions
  (`LimitHoldsExactlyWhen`). Without a positive interval a clock set back is not refused, which matters as soon as
  two restarts are allowed (`NoIntervalNoOrder`, `GuardWorksExactlyWhen`).
- A DHCP pad is taken for an option with a length: pads are skipped in pairs, and an odd one swallows what follows
  (`WalkOverPads`, `PadHidesRouter`).
- A contract stored where the fresh object holds a plain value comes back as plain data
  (`ContractComesBackPlain`, `RoundTripExactlyWhen`).

## Model

| member | source | states |
|---|---|---|
| UpdateTheorems.ExitTargetIsHighestAvailable | azurelinuxagent/ga/agent_update_handler.py:187-208 | At every upgrade exit, upgrade or downgrade, in either mode, the highest available agent on disk is the target if and only if its manifest loads, a needed blacklisting of the running version is saved, and no directory that resisted purging is higher and available |
| UpdateTheorems.DaemonLaunchesTarget | azurelinuxagent/ga/update.py:864-880 | After such an exit the version the daemon picks is the target |
| UpdateTheorems.ExitTargetIsEligible | azurelinuxagent/ga/self_update_version_updater.py:155-198 | Self-update exits only to a manifest version above the current one when every higher manifest version could not be prepared; RSM exits only to the requested version, which differs from the current one, is not below the daemon's, and on a downgrade names the current version as its from-version |
| UpdateTheorems.RetrieveRsmIsSound | azurelinuxagent/ga/rsm_version_updater.py:81-128 | What an RSM retrieval may do to the disk and which agent it may return |
| UpdateTheorems.CandidatesAreSound | azurelinuxagent/ga/self_update_version_updater.py:136-144 | The candidates are the manifest versions above the current one, all of them, highest first |
| UpdateTheorems.PrepareFirstPicks | azurelinuxagent/ga/self_update_version_updater.py:177-198 | The agent returned is the first candidate that can be prepared, and all earlier ones could not |
| UpdateTheorems.RsmUsesItsFirstManifest | azurelinuxagent/ga/ga_version_updater.py:185-210 | A permitted request fails for want of a package if and only if the manifest fetched first lacks the version, whatever the new manifest holds |
| UpdateTheorems.GateOpensExactlyWhenDue | azurelinuxagent/ga/self_update_version_updater.py:66-86 | Over any number of checks the gate opens exactly at a check not before the time drawn at the first one, whatever later draws would give |
| UpdateTheorems.AtMostThreeExits | azurelinuxagent/ga/guestagent.py:286-330 | Across any history of runs, restarts and failures, at most three exits target a version while its directory survives and its counter is saved |
| UpdateTheorems.ExitKeepsDirectoryExactlyWhen | azurelinuxagent/ga/guestagent.py:52-75 | The target's directory, and its counter, survive the exit if and only if the manifest of its package loads |
| UpdateTheorems.MalformedPackageExitsForever | azurelinuxagent/ga/guestagent.py:152-193 | With a malformed manifest there are histories with any number of exits to the same version |
| AgentSurvival.RunLosesExactlyWhen | azurelinuxagent/ga/ga_version_updater.py:185-210 | A run drops a directory if and only if its package is tried and neither the directory nor the download gives a manifest that loads, or the target is another version with attempts left and the directory is purged, being neither running nor stuck, or a downgrade loads it and its manifest does not load |
| AgentSurvival.EventLosesExactlyWhen | azurelinuxagent/ga/ga_version_updater.py:273-292 | The same for every kind of event: a restart drops exactly the directories whose manifest does not load, a recorded failure none |
| AgentSurvival.SurvivesExactlyWhen | azurelinuxagent/ga/guestagent.py:52-75 | Over any history a directory survives with its counts saved if and only if no event meets that condition and every count is saved |
| AgentSurvival.LimitWhileNothingLoses | azurelinuxagent/ga/guestagent.py:286-330 | The limit of three exits, with the condition on the events rather than on the disks they leave |
| AgentSurvival.PurgeCycleExitsForever | azurelinuxagent/ga/agent_update_handler.py:187-208 | Three versions requested in turn exit any number of times, although every package loads and every count is saved |
| UpdateTheorems.StepKeepsModeCoherent | azurelinuxagent/ga/agent_update_handler.py:145-175 | Every step keeps RSM marker, updater and initial-update marker coherent; the mode changes only in a run with a new goal state after the initial update |
| UpdateTheorems.CleanStartIsCoherent | azurelinuxagent/ga/guestagent.py:342-400 | In every state reachable from a clean disk the RSM marker is there if and only if the updater is the RSM one, and it implies the initial-update marker |
| AgentUpdateHandlers.AgentUpdateHandler.constructor | azurelinuxagent/ga/agent_update_handler.py:79-90 | A restart takes up the mode that the marker files record |
| AgentUpdateHandlers.AgentUpdateHandler.FindPackage | azurelinuxagent/ga/ga_version_updater.py:219-229 | The search finds a package if and only if the manifest has the version |
| AgentUpdateHandlers.AgentUpdateHandler.DownloadAndGetNewAgent | azurelinuxagent/ga/ga_version_updater.py:98-210 | Disk and result after downloading a package and loading it, for every way that can go |
| AgentUpdateHandlers.AgentUpdateHandler.PrepareCandidates | azurelinuxagent/ga/self_update_version_updater.py:177-198 | The retry loop equals the specification about which PrepareFirstPicks is proved |
| AgentUpdateHandlers.AgentUpdateHandler.RetrieveAndDownloadSelf | azurelinuxagent/ga/self_update_version_updater.py:155-198 | State and result of a self-update retrieval |
| AgentUpdateHandlers.AgentUpdateHandler.RetrieveAndDownloadRsm | azurelinuxagent/ga/rsm_version_updater.py:81-128 | State and result of an RSM retrieval, with its cached manifest |
| AgentUpdateHandlers.AgentUpdateHandler.PurgeExtraAgents | azurelinuxagent/ga/ga_version_updater.py:273-292 | Exactly the known directories and those whose removal fails are left |
| AgentUpdateHandlers.AgentUpdateHandler.BlacklistCurrent | azurelinuxagent/ga/rsm_version_updater.py:130-160 | On a downgrade the running version is blacklisted if it is found among the available agents |
| AgentUpdateHandlers.AgentUpdateHandler.FinishUpdate | azurelinuxagent/ga/agent_update_handler.py:187-208 | The attempt check, clearing, counting, purging and exit, as one new state and outcome |
| AgentUpdateHandlers.AgentUpdateHandler.RunOnce | azurelinuxagent/ga/agent_update_handler.py:137-231 | One call of run, including all error paths, is one step of the histories in the theorems |
| HandlerTheorems.RunIsSafe | azurelinuxagent/ga/exthandlers.py:825-891 | In every run of enable, disable and uninstall requests with any commands failing, at most one version of a handler is Installed or Enabled after every single write, if directory removals work |
| HandlerTheorems.SwapIsSafe | azurelinuxagent/ga/exthandlers.py:945-1012 | A new version becomes Installed only after the old one is gone, whichever step of the update fails |
| HandlerTheorems.RequestIsSafe | azurelinuxagent/ga/exthandlers.py:1014-1068 | The same for one request of any kind, from any disk with at most one version installed |
| HandlerTheorems.UpdateIsSafeExactlyWhen | azurelinuxagent/ga/exthandlers.py:1868-1901 | An update leaves two versions installed at some moment if and only if all steps before the removal succeed, the removal fails, and the new version reaches its Installed state |
| HandlerTheorems.RequestIsSafeExactlyWhen | azurelinuxagent/ga/exthandlers.py:825-891 | From any disk with at most one version installed, a request of any kind keeps it so at every moment if and only if it is not an update that succeeds up to the removal, fails to remove, and reaches the new version |
| HandlerTheorems.RunIsSafeExactlyWhen | azurelinuxagent/ga/exthandlers.py:825-891 | In every run of requests, with commands and removals failing anywhere, at most one version is Installed or Enabled after every single write if and only if no update of the run is of that kind |
| HandlerTheorems.ExecuteConcat | azurelinuxagent/ga/exthandlers.py:945-1012 | Executing two plans in a row is executing the first and, on success, the second from the disk it left |
| MultiConfigTheorems.DisableKeepsStepExactlyWhen | azurelinuxagent/ga/exthandlers.py:1804-1832 | Disabling an extension keeps an installed version in step with its extensions if and only if a listed extension stays enabled or none stays enabled |
| MultiConfigTheorems.EnableKeepsStepExactlyWhen | azurelinuxagent/ga/exthandlers.py:1755-1788 | An enable that works keeps them in step if and only if it names an extension or finds one enabled |
| MultiConfigTheorems.RequestHasItsEffect | azurelinuxagent/ga/exthandlers.py:920-943 | A request about the installed version writes nothing or exactly what its last step does, according to which of its checks and commands fail |
| MultiConfigTheorems.RequestKeepsStepExactlyWhen | azurelinuxagent/ga/exthandlers.py:920-943 | Such a request, with or without an extension and whatever fails, keeps the two levels in step if and only if that effect, judged on the disk before, does |
| MultiConfigTheorems.BareEnableKeepsStepExactlyWhen | azurelinuxagent/ga/exthandlers.py:920-943 | An enable without settings keeps them in step if and only if an extension is enabled already, or a check or the command fails |
| MultiConfigTheorems.RunStaysInStepExactlyWhen | azurelinuxagent/ga/exthandlers.py:825-891 | In every run of such requests the handler is Enabled exactly when one of its extensions is, after every request, if and only if every effect keeps step on the disk it meets |
| MultiConfigTheorems.HandlerStaysInStep | azurelinuxagent/ga/exthandlers.py:1755-1788 | At the end of every run, failing or not, whose requests list every enabled extension and whose enables without settings find one enabled, the handler is Enabled if and only if one of its extensions is |
| MultiConfigRuns.EffectKeepsExactlyWhen | azurelinuxagent/ga/exthandlers.py:1755-1848 | On a disk whose installed versions are all in step, any write action of the protocol leaves them so if and only if a condition on that disk holds: a version becomes Installed with no extension enabled, an enable names an extension or finds one enabled, a disable leaves a listed extension enabled or none |
| MultiConfigRuns.MomentsAreInStepExactlyWhen | azurelinuxagent/ga/exthandlers.py:825-891 | In every run of enables, disables, updates and uninstalls, with commands and removals failing anywhere, every installed version is in step at every moment if and only if every effect keeps step on the disk it meets |
| MultiConfigRequests.RequestStaysInStepExactlyWhen | azurelinuxagent/ga/exthandlers.py:825-1068 | A request of any kind leaves every installed version in step for all outcomes of its commands if and only if the disk and the request meet a condition: for an enable of an installed version or a disable, its one effect keeps step; for an update or uninstall, the goal state lists all or none of the enabled extensions of the version to be stopped; for an install or update, the new directory records no enabled extension and settings are given |
| MultiConfigRequests.HandlerStaysInStepExactlyWhen | azurelinuxagent/ga/exthandlers.py:825-1068 | For any sequence of requests, every installed version is in step after each of them for all outcomes if and only if each request meets that condition on every disk the earlier ones may leave |
| MultiConfigTheorems.FailedDowngradeKeepsExtension | azurelinuxagent/ga/exthandlers.py:945-1012 | A concrete failed downgrade leaves the old directory in FailedUpgrade with its extension still saved as enabled |
| MultiConfigTheorems.InstallStaysInStepExactlyWhen | azurelinuxagent/ga/exthandlers.py:1834-1848 | Installing a version, afresh or by an update, ends in step for all outcomes of its commands if and only if it comes with settings and its directory records no enabled extension |
| MultiConfigTheorems.ReinstallCanBreakStep | azurelinuxagent/ga/exthandlers.py:1834-1848 | After that downgrade, installing the old version anew, with any handler settings and package, can leave it Installed with an enabled extension |
| HandlerProtocol.InstalledVersion | azurelinuxagent/ga/exthandlers.py:1441-1460 | The result is installed and above every other installed version, or none is installed |
| ExtHandlers.ExtHandlersHandler.GetInstalledVersion | azurelinuxagent/ga/exthandlers.py:1441-1460 | The scan over the directories finds the highest installed version, in whatever order it sees them |
| ExtHandlers.ExtHandlersHandler.GetEnabledSettings | azurelinuxagent/ga/exthandlers.py:1281-1290 | The settings to disable, in order |
| ExtHandlers.ExtHandlersHandler.SaveEnabled | azurelinuxagent/ga/exthandlers.py:1769-1788 | The writes after a successful enable |
| ExtHandlers.ExtHandlersHandler.SaveDisabled | azurelinuxagent/ga/exthandlers.py:1804-1832 | The writes after a disable, with the fall back to Installed when no listed extension is enabled |
| ExtHandlers.ExtHandlersHandler.DisableIgnoringError | azurelinuxagent/ga/exthandlers.py:920-943 | Dropping an extension: skipped if it is disabled already, its state saved even when the command fails |
| ExtHandlers.ExtHandlersHandler.RemoveHandler | azurelinuxagent/ga/exthandlers.py:1868-1901 | Removal of a handler directory, a failure being only logged |
| ExtHandlers.ExtHandlersHandler.LeaveOldVersion | azurelinuxagent/ga/exthandlers.py:945-1012 | Everything an update does while the old version is there executes the plan of the theorems, error by error |
| ExtHandlers.ExtHandlersHandler.UpdateCommand | azurelinuxagent/ga/exthandlers.py:1903-1936 | The update command runs in the greater version, which gets FailedUpgrade when it fails |
| ExtHandlers.ExtHandlersHandler.EnterNewVersion | azurelinuxagent/ga/exthandlers.py:1938-1945 | The new version is installed, by its own command if its manifest says so |
| ExtHandlers.ExtHandlersHandler.FetchPackage | azurelinuxagent/ga/exthandlers.py:1492-1504 | A package that cannot be expanded, downloaded or initialized costs its directory |
| ExtHandlers.ExtHandlersHandler.HandleEnable | azurelinuxagent/ga/exthandlers.py:825-891 | An enable request executes its plan, with every early return |
| ExtHandlers.ExtHandlersHandler.HandleDisable | azurelinuxagent/ga/exthandlers.py:1014-1022 | A disable request executes its plan |
| ExtHandlers.ExtHandlersHandler.HandleUninstall | azurelinuxagent/ga/exthandlers.py:1024-1068 | An uninstall request executes its plan |
| ExtHandlers.ExtHandlersHandler.HandleRequest | azurelinuxagent/ga/exthandlers.py:650-691 | A request picks the version to address and executes the plan about which RequestIsSafe is proved |
| Sorting.SortIsSound | azurelinuxagent/ga/exthandlers.py:497-509 | The processing order is ascending by key and loses or repeats no item |
| Sorting.SortIsStable | azurelinuxagent/ga/exthandlers.py:497-509 | Items with equal keys keep their order |
| ExtensionProcessing.OrderOfProcessing | azurelinuxagent/common/protocol/restapi.py:158-168 | Disables and uninstalls come before enables; enables go up the levels, the others down |
| ExtensionProcessing.WaitForCompletion | azurelinuxagent/ga/exthandlers.py:611-648 | Waiting succeeds if and only if there are no settings, or success was seen with nothing but transitioning or warning before it |
| ExtensionProcessing.HandleExtHandlers | azurelinuxagent/ga/exthandlers.py:511-609 | The processed items are a prefix of the stable order that ends early exactly at a dependency that failed or was not seen to succeed; disabled processing or a policy error turns all items down |
| ExtensionProcessing.DependenciesComeFirst | azurelinuxagent/ga/exthandlers.py:511-609 | An item at a higher level is processed only if every item at levels from 0 up to it was processed before, succeeded and was seen to succeed |
| FirewallTheorems.RunKeepsOrder | azurelinuxagent/ga/env.py:138-183 | In every run with appends failing anywhere and deletes working or exiting with 2, the agent's rules are a duplicate-free ordered subsequence of the three after every single command |
| FirewallTheorems.RunKeepsOrderExactlyWhen | azurelinuxagent/ga/env.py:138-183 | For commands with any outcomes, a run in which others leave the agent's rules alone keeps them in order after every single command if and only if no execution appends to a chain that still holds agent rules |
| FirewallTheorems.OperationKeepsOrderExactlyWhen | azurelinuxagent/ga/firewall_manager.py:250-257 | One execution keeps the order at every moment, for all behaviours of the commands, if and only if it does not append to a chain that still holds agent rules |
| FirewallTheorems.CheckSuccessMeansRightOrder | azurelinuxagent/ga/firewall_manager.py:270-295 | A successful check, which never looks at the order, implies that the three rules are there in the right order |
| FirewallTheorems.RemoveRemovesAll | azurelinuxagent/ga/firewall_manager.py:454-471 | A removal that returns normally leaves no instance of any rule and adds nothing |
| FirewallTheorems.DeleteLeavesRuleExactlyWhen | azurelinuxagent/ga/firewall_manager.py:454-471 | With one instance in the chain the delete loop returns normally and leaves it there if and only if its first try that works or exits with 1 or 2 exits with 1, or no try does any of these |
| FirewallTheorems.SetupStartsClean | azurelinuxagent/ga/firewall_manager.py:397-415 | When setup is about to run no agent rule is left in the chain |
| FirewallTheorems.StuckDeleteBreaksOrder | azurelinuxagent/ga/firewall_manager.py:454-471 | With some but not all rules in place and every delete failing with any code but 2, an execution breaks the order |
| FirewallTheorems.OrderHoldsExactlyWhen | azurelinuxagent/ga/env.py:138-183 | For any set of outcomes of a delete: every run from a chain without agent rules, with deletes drawn from that set, checks that do not lie and appends failing anywhere, keeps the rules in order after every single command if and only if every failing outcome in the set exits with 2 |
| FirewallReports.RunReportsAtMostEightPerPeriod | azurelinuxagent/ga/env.py:111-136 | In every run from the start of the agent at most eight executions report in a period, however the state flips |
| FirewallReports.RunReportsFewPerStretch | azurelinuxagent/ga/env.py:190-207 | In every run from the start, a stretch without a change between OK and not OK has at most one report when OK and three when not, even if the execution that opens it flips back and forth |
| FirewallReports.UpdateStatesEffect | azurelinuxagent/ga/env.py:201-207 | What any sequence of states within an execution does to the counters |
| EnableFirewalls.IpTables.CheckAll | azurelinuxagent/ga/firewall_manager.py:397-415 | The check loop and the comparison with the listing decide as specified |
| EnableFirewalls.IpTables.Compare | azurelinuxagent/ga/firewall_manager.py:397-415 | A rule reported missing that the listing shows means the check cannot be trusted |
| EnableFirewalls.IpTables.DeleteInstances | azurelinuxagent/ga/firewall_manager.py:454-471 | The delete loop, with its meaning of exit codes 1 and 2 and its 99 tries |
| EnableFirewalls.IpTables.RemoveAll | azurelinuxagent/ga/firewall_manager.py:254-257 | The removal loop over the rules |
| EnableFirewalls.IpTables.SetupAll | azurelinuxagent/ga/firewall_manager.py:250-252 | The append loop, up to the first failure |
| EnableFirewalls.EnableFirewall.constructor | azurelinuxagent/ga/env.py:117-136 | The initial state and counters |
| EnableFirewalls.EnableFirewall.BeginReport | azurelinuxagent/ga/env.py:190-199 | Counters reset at the end of a period, and whether this execution may report |
| EnableFirewalls.EnableFirewall.SetState | azurelinuxagent/ga/env.py:201-207 | A change between OK and not OK starts a new count while the period has reports left |
| EnableFirewalls.EnableFirewall.RunOperation | azurelinuxagent/ga/env.py:138-183 | One execution: the chain, the states it goes through and the report counters |
| SoftLockupTheorems.ScanKeepsTracesSound | azurelinuxagent/ga/kernel_event_monitor.py:198-243 | For every stream of lines the byte counter is the summed length of all captured lines and within 32 KB, there are at most 4 traces of at most 50 lines, and each is a contiguous run of accepted lines starting at its own lockup line, also after evictions |
| SoftLockupTheorems.TracedCpusAreTheFirst | azurelinuxagent/ga/kernel_event_monitor.py:220-243 | A CPU has a trace if and only if it is among the first four distinct CPUs seen, unless a new CPU was refused for lack of bytes |
| SoftLockupTheorems.TracedCpuStaysTraced | azurelinuxagent/ga/kernel_event_monitor.py:209-243 | No line ever takes away a CPU's only trace, refusals or not |
| SoftLockupTheorems.EvictionKeepsCpus | azurelinuxagent/ga/kernel_event_monitor.py:209-218 | Evicting the last repeat leaves the set of CPUs with traces unchanged |
| SoftLockupTheorems.ScanAggregates | azurelinuxagent/ga/kernel_event_monitor.py:251-283 | Per CPU the count, maximum and last timestamp equal a fold over the accepted lockup lines, and the watermark is the last accepted timestamp |
| LockupCounting.ScanStep | azurelinuxagent/ga/kernel_event_monitor.py:329-343 | A scan accepts exactly the timestamped lines of its window that the watermark in memory does not cover; what memory and file cover afterwards, for a save that works or fails |
| LockupCounting.NoLineIsMissed | azurelinuxagent/ga/kernel_event_monitor.py:329-343 | Over any scans and restarts in one boot, whatever is forgotten, the counted lines include every timestamped line up to the end of the last scan, as often as the log has it |
| LockupCounting.CountedOnceExactlyWhen | azurelinuxagent/ga/kernel_event_monitor.py:329-343 | Over any scans and restarts in one boot, with boot IDs read or unknown and saves and loads that work or fail, the counted lines include every timestamped line, and they are each line once and in order if and only if no scan shows again a scanned line that was forgotten |
| LockupCounting.BootIsCountedOnceExactlyWhen | azurelinuxagent/ga/kernel_event_monitor.py:139-173 | The same from the first start of the agent in a boot |
| LockupCounting.EveryLineIsCountedOnce | azurelinuxagent/ga/kernel_event_monitor.py:175-187 | Hence each line is counted once when every start reads boot ID and file and every save works |
| LockupCounting.RestartForgetsExactlyWhen | azurelinuxagent/ga/kernel_event_monitor.py:126-173 | With a restart between two scans of a log that has something to count, the count is exact if and only if the boot ID is read at both starts, the save works and the file can be read |
| SoftLockups.LastRepeat | azurelinuxagent/ga/kernel_event_monitor.py:209-218 | The result is the last trace whose CPU has an earlier trace, or there is none |
| SoftLockupMonitors.MonitorKernelSoftLockup.constructor | azurelinuxagent/ga/kernel_event_monitor.py:112-173 | A start takes up the saved watermark exactly as the restarts in the counting theorems do |
| SoftLockupMonitors.MonitorKernelSoftLockup.SaveState | azurelinuxagent/ga/kernel_event_monitor.py:175-187 | The watermark is saved under the boot ID, or the file stays as it was |
| SoftLockupMonitors.MonitorKernelSoftLockup.AppendToTraces | azurelinuxagent/ga/kernel_event_monitor.py:198-207 | The loop adds the line to every open trace that has room and closes those the budget cuts off |
| SoftLockupMonitors.MonitorKernelSoftLockup.IndexOfLastRepeat | azurelinuxagent/ga/kernel_event_monitor.py:209-218 | The loop finds the last repeat |
| SoftLockupMonitors.MonitorKernelSoftLockup.StartLogCapture | azurelinuxagent/ga/kernel_event_monitor.py:220-243 | A new trace is started as it is, after an eviction, or not at all |
| SoftLockupMonitors.MonitorKernelSoftLockup.ParseAndAggregate | azurelinuxagent/ga/kernel_event_monitor.py:251-283 | One line is one step of the scan |
| SoftLockupMonitors.MonitorKernelSoftLockup.Operation | azurelinuxagent/ga/kernel_event_monitor.py:329-343 | One scan, with its report, the reset of the tables and the watermark, saved or not |
| DhcpTheorems.ResponseRoundTrip | azurelinuxagent/common/dhcp.py:279-320 | For every list of options with codes 0 to 254, closed by code 255 or the end of the message and followed by anything, the walk lands on each option and gives the last decode of router, endpoint and routes, without error |
| DhcpTheorems.RoutesRoundTrip | azurelinuxagent/common/dhcp.py:241-263 | Every list of routes with prefixes 0 to 32, encoded as RFC 3442 says, is decoded to its networks with the bits outside the prefix cleared, its masks and its routers |
| DhcpTheorems.DecodedRoutesWereEncoded | azurelinuxagent/common/dhcp.py:241-263 | Whatever is decoded without error was the encoding of some list of routes that reaches the end of the option |
| DhcpTheorems.NetworkIsMasked | azurelinuxagent/common/dhcp.py:250-256 | Reading, shifting and masking the significant octets clears exactly the bits outside the prefix |
| DhcpTheorems.MaskMeaning | azurelinuxagent/common/dhcp.py:250-252 | The mask is as many ones as the prefix has bits, followed by zeros |
| DhcpTheorems.AddressAt | azurelinuxagent/common/dhcp.py:266-276 | A four-octet payload is decoded to its octets and any other length to nothing |
| DhcpTheorems.DottedIsTheOctets | azurelinuxagent/common/utils/textutil.py:226-233 | The dotted form of a number shows the octets it was unpacked from |
| DhcpTheorems.WalkOverPads | azurelinuxagent/common/dhcp.py:295-320 | A walk that meets any number of pads goes on right behind them if and only if the number is even, and otherwise takes the octet behind them for a length |
| DhcpTheorems.EvenPadsAreHarmless | azurelinuxagent/common/dhcp.py:295-320 | An even number of pads before any list of options changes nothing in what is found |
| DhcpTheorems.PadHidesRouter | azurelinuxagent/common/dhcp.py:295-320 | After any odd number of pads, for any address in the router option that follows them and is the last option, a walk that raises no error finds no router, and it raises none unless it takes the third octet of the address for the code of the routes option |
| Dhcp.PrefixOctets | azurelinuxagent/common/dhcp.py:250-251 | The shifted and masked count is the prefix length divided by 8, rounded up |
| Dhcp.UnpackBigEndian | azurelinuxagent/common/utils/textutil.py:118-139 | The loop computes the number or fails past the end of the message |
| Dhcp.ParseRoute | azurelinuxagent/common/dhcp.py:241-263 | The loop over descriptors, with its errors |
| Dhcp.ParseDhcpResponse | azurelinuxagent/common/dhcp.py:279-320 | The loop over options equals the walk about which ResponseRoundTrip is proved |
| TelemetryTheorems.EveryEventIsAccounted | azurelinuxagent/ga/send_telemetry_events.py:71-143 | In every interleaving of producers, worker, stops, restarts and crashes, the events put are the settled ones, then the held one, then the queue, in order; and the worker never asks an empty queue for an event |
| TelemetryTheorems.HandedExactlyWhen | azurelinuxagent/ga/send_telemetry_events.py:121-143 | Every settled event was handed over if and only if report_event never raised before asking for the held event |
| TelemetryTheorems.DropsAreRaises | azurelinuxagent/ga/send_telemetry_events.py:121-133 | The number of dropped events is the number of such raises |
| TelemetryTheorems.ExitMeansDrained | azurelinuxagent/ga/send_telemetry_events.py:103-114 | The worker exits only when stopped, at an empty test that finds every event put so far settled |
| TelemetryTheorems.LeftoversWereInFlight | azurelinuxagent/ga/send_telemetry_events.py:71-85 | After the exit, until a restart, nothing more is settled, and queue and in-flight events together stay what they were |
| TelemetryTheorems.NothingIsLeftExactlyWhen | azurelinuxagent/ga/send_telemetry_events.py:71-85 | After an exit with an empty queue, the queue stays empty in every continuation without a restart if and only if no producer is between its test and its put |
| TelemetryTheorems.ExitIsFinalExactlyWhen | azurelinuxagent/ga/send_telemetry_events.py:103-114 | At every exit of every run, all events put are settled, then and in every continuation without a restart, if and only if no accepted event is in flight |
| TelemetryTheorems.LatePutIsLeftBehind | azurelinuxagent/ga/send_telemetry_events.py:71-85 | An accepted event can be left in the queue by a stop between its test and its put |
| TelemetryTheorems.StopDrains | azurelinuxagent/ga/send_telemetry_events.py:57-61 | Once stopped, with producers still in flight, the worker exits within six of its steps per event queued or in flight and eight more |
| TelemetryHandlers.SendTelemetryEventsHandler.TestStopped | azurelinuxagent/ga/send_telemetry_events.py:71-74 | An event is accepted if and only if the handler is not stopped |
| TelemetryHandlers.SendTelemetryEventsHandler.PutEvent | azurelinuxagent/ga/send_telemetry_events.py:76-85 | The put of a call in flight |
| TelemetryHandlers.SendTelemetryEventsHandler.WaitForEventInQueue | azurelinuxagent/ga/send_telemetry_events.py:87-101 | The wait, with other threads running before every step, makes the steps of the state machine |
| TelemetryHandlers.SendTelemetryEventsHandler.SendEventsInQueue | azurelinuxagent/ga/send_telemetry_events.py:121-133 | The batching loop and the hand-over |
| TelemetryHandlers.SendTelemetryEventsHandler.GetEventsInQueue | azurelinuxagent/ga/send_telemetry_events.py:135-143 | The generator that drains the queue |
| TelemetryHandlers.SendTelemetryEventsHandler.Daemon | azurelinuxagent/ga/send_telemetry_events.py:103-119 | The worker thread, for every schedule of the other threads, is a run of the state machine |
| RestartTheorems.RunKeepsGuarded | azurelinuxagent/ga/agent_memory_restart_history.py:177-219 | In every run of guarded restarts, if the interval is positive or at most one restart is allowed, each retained version has at most the allowed entries, each at least the interval after all earlier ones, whatever the clock does from one restart to the next |
| RestartLimit.RestartsAreBounded | azurelinuxagent/ga/update.py:1356-1376 | Across any run in which pruning does not drop it, a version restarts at most the allowed number of times |
| RestartLimit.LimitHoldsExactlyWhen | azurelinuxagent/ga/update.py:1356-1376 | Every version of a set restarts at most the allowed number of times in every run over that set if and only if the set has at most three versions or no restart is allowed |
| RestartLimit.FewAreRemembered | azurelinuxagent/ga/agent_memory_restart_history.py:221-244 | With at most three versions around, no run forgets one |
| RestartLimit.LimitIsOverrun | azurelinuxagent/ga/agent_memory_restart_history.py:221-244 | For any four versions and any limit above zero there is a run in which one of them restarts once more than allowed |
| RestartTheorems.PrunedKeepsExactly | azurelinuxagent/ga/agent_memory_restart_history.py:221-244 | Pruning keeps a version if and only if fewer than three rank ahead of it |
| RestartTheorems.PrunedIsPart | azurelinuxagent/ga/agent_memory_restart_history.py:221-244 | What is kept is unchanged and distinct, and is at most three versions when all timestamps parse |
| RestartTheorems.LatestRestartIsKept | azurelinuxagent/ga/agent_memory_restart_history.py:197-219 | A restart recorded later than the last one of every other version keeps its version |
| Sorting.PlaceIsAhead | azurelinuxagent/ga/agent_memory_restart_history.py:242-244 | An item's place in the stable sort is the number of items ahead of it |
| RestartTheorems.LatestBounds | azurelinuxagent/ga/agent_memory_restart_history.py:165-175 | The latest time bounds all entries and is one of them; it exists if and only if every timestamp parses |
| RestartLimit.ForgottenVersionRestartsAgain | azurelinuxagent/ga/agent_memory_restart_history.py:221-244 | A version, whatever its record, is pushed out by three more recent ones and is then allowed again |
| RestartTheorems.NoIntervalNoOrder | azurelinuxagent/ga/agent_memory_restart_history.py:186-194 | Without a positive interval a clock set back lets restarts be recorded out of order |
| RestartTheorems.GuardWorksExactlyWhen | azurelinuxagent/ga/agent_memory_restart_history.py:177-195 | Limit and spacing hold in every run, for all clocks that do not go back between check and record, if and only if the interval is positive or at most one restart is allowed |
| AgentMemoryRestartHistories.AgentMemoryRestartHistory.constructor | azurelinuxagent/ga/agent_memory_restart_history.py:116-142 | What is loaded from each kind of file, and what becomes of the file |
| AgentMemoryRestartHistories.AgentMemoryRestartHistory.LatestTime | azurelinuxagent/ga/agent_memory_restart_history.py:165-175 | The loop computes the latest time or finds one that does not parse |
| AgentMemoryRestartHistories.AgentMemoryRestartHistory.VersionCanRestart | azurelinuxagent/ga/agent_memory_restart_history.py:177-195 | The guard, with limit, interval, clock skew and parse error |
| AgentMemoryRestartHistories.AgentMemoryRestartHistory.PruneVersions | azurelinuxagent/ga/agent_memory_restart_history.py:221-244 | Pruning keeps everything when a timestamp does not parse |
| AgentMemoryRestartHistories.AgentMemoryRestartHistory.RecordRestart | azurelinuxagent/ga/agent_memory_restart_history.py:197-219 | The record is appended and pruned in memory even when saving fails |
| AgentMemoryRestartHistories.RestartOnBreach | azurelinuxagent/ga/update.py:1356-1376 | The agent exits only after an allowed restart was recorded on disk |
| DataContractTheorems.RoundTripExactlyWhen | azurelinuxagent/common/datacontract.py:47-85 | Reading back what was written out rebuilds the value if and only if it has the shape of the fresh object, at any depth of nested contracts and lists |
| DataContractTheorems.ReadIsStable | azurelinuxagent/common/datacontract.py:47-85 | Whatever data was accepted, writing the result out and reading it again gives the same object |
| DataContractTheorems.ContractComesBackPlain | azurelinuxagent/common/protocol/restapi.py:243-257 | A contract where the fresh object holds a plain value comes back as plain data |
| DataContract.SetProperties | azurelinuxagent/common/datacontract.py:47-68 | The recursion with its loops over properties in any order and over items, and its errors |
| DataContract.GetProperties | azurelinuxagent/common/datacontract.py:71-85 | The recursion over properties in any order and over items |

## Left out

- Text of commands, subprocesses, systemd, HTTP, zip extraction, JSON and XML: outcomes are parameters.
- Signature validation, certificates and the policy engine: they pass or fail as parameters.
- Log messages, telemetry text, error messages and goal-state identifiers.
- Parsing of version strings and agent directories whose names are not canonical.
- Failures to write handler state files and marker files, which the source swallows.
- The nftables and firewalld managers and the legacy firewall rule.
- The text of the soft-lockup report and its limit on CPU details; a dmesg command that fails in the middle of a scan.
- The consecutive-breach counter and the sampling period of the memory check, cgroup controllers, provisioning, osutil.
- AgentUpdateHandlers.AgentUpdateHandler.DownloadAndGetNewAgent: a bad agent directory is always removed; the source ignores errors of that removal, and a malformed manifest file that stays behind, which then counts as available, has no outcome here, nor in the loading of all directories.
- TelemetryHandlers.SendTelemetryEventsHandler.GetEventsInQueue: report_event either exhausts the generator, as the one of the wire client does, or raises; one that returns early has no outcome.
- DataContract.SetProperties: objects are values, so aliasing between the updated object and others is not captured; attribute names found on the class rather than the object are not modelled, and all errors are one.
- TelemetryHandlers.SendTelemetryEventsHandler.Daemon: events are taken to be objects that count as true, as telemetry events do; a queue with a size limit is not modelled.
- TelemetryTheorems.StopDrains: bounds the worker's own steps, not time.
- ExtHandlers.ExtHandlersHandler.RemoveHandler: a removal either works or fails and leaves the directory as it was; a partial removal, and a removal that works and is followed by an exception, have no outcome, nor has an exception between two writes of the state files.
- FirewallTheorems.RunKeepsOrder: requires deletes to work or exit with 2, and others to leave the agent's rules alone; RunKeepsOrderExactlyWhen covers commands with any outcomes.
- HandlerTheorems.RunIsSafe: requires that directory removals work; RunIsSafeExactlyWhen covers removals that fail.
- MultiConfigTheorems.HandlerStaysInStep: requires goal states that list every enabled extension; RunStaysInStepExactlyWhen covers the others.
- MultiConfigTheorems.RunStaysInStepExactlyWhen: is about requests for the installed version; MultiConfigRuns.MomentsAreInStepExactlyWhen and MultiConfigRequests.HandlerStaysInStepExactlyWhen are about all requests.
- LockupCounting.CountedOnceExactlyWhen: is about one boot; timestamps within it are positive and do not decrease, and lines added after a scan are newer than it.
- RestartTheorems.RunKeepsGuarded: requires that limit and interval do not change during the run.
