# Verified model of the modified Linux kernel sources

A Dafny 4.11 model of the stateful parts of the kernel changes and kernel files in this repository, with
machine-checked proofs of what they keep over every run and for every input. `dafny verify dfyconfig.toml`
checks everything.

| file | models |
|---|---|
| `Errno.dfy` | error numbers, an option type |
| `Sessions.dfy` | `setpgid`, `setsid` and the environment steps fork, clone, exec, exit, reparent |
| `XorCipher.dfy` | the multi-threaded XOR cipher as interleaved byte loads and stores |
| `Ids.dfy` | what the `set*uid` / `set*gid` calls make of the four ids, and runs of them |
| `Credentials.dfy` | the same calls in place, with reference-counted user structures |
| `Priority.dfy` | `setpriority`, `getpriority` |
| `SysInfo.dfy` | 64-bit and 32-bit `sysinfo` scaling |
| `Subreaper.dfy` | `PR_SET_CHILD_SUBREAPER` and its pruned walk |
| `PrctlMm.dfy` | the `PR_SET_MM` setters |
| `KernelLog.dfy` | `retrieve_last_five_logs` |
| `CStrings.dfy`, `CommandLine.dfy` | C strings in memory, `setup_command_line` |
| `BootParams.dfy` | `argv_init`, `envp_init`, `repair_env_string` |
| `XbcCmdline.dfy` | `xbc_snprint_cmdline`, `xbc_make_cmdline` |
| `Reports.dfy` | the decimal reports and the API's `sscanf` readers |

Every C function is a method that changes its state in place, in the order of the source, and is proved
against a specification function; the properties are lemmas about that function and about runs of it.
Answers of code outside these files (allocation, capabilities, security hooks, user memory) are
parameters, so every theorem holds for whatever they answer. Fork, exec, exit and reparenting are
environment steps, more general than the kernel's: parents may be any number, pids are only required not
to be in use as a pid, a group or a session.

## Where the code and its comments part

- The comment at `init/main.c:581-587` says arguments before `init=` are ignored. `init_setup` clears slots 1 to
  MAX-1 only: an argument in slot MAX survives (`BootParams.OldArgumentComesBack`);
  `BootParams.IgnoredBeforeInitIff` says exactly when the comment holds.
- "Too many boot env vars" (`init/main.c:1013-1015`) is also what the kernel panics with when there are just
  enough: writing the variable in slot MAX a second time is reported as an overflow although the slot is simply
  overwritten. `BootParams.EnvironmentOverflowsIff` says exactly which settings lead to the panic.
- The comment at `init/main.c:651-657` promises the order " -- ", added init arguments, own init arguments. The code
  uses the character before the own init arguments as separator, twice, whatever it is:
  `CommandLine.PromisedOrderIff` says that the order is kept exactly when that character is white space; a boot
  line ending in a bare `--` gets the added arguments glued to it (`CommandLine.BareSeparatorIsGlued`).
- `setpriority` returns 0 although a match was refused, when a security hook answers -ESRCH and a later match is
  accepted (`Priority.HookNoSuchTaskIsMasked`). `Priority.RunningMeaning` gives the exact code for any hooks, and
  `Priority.ReturnCodeIff` says that the code can be read as documented exactly when the last refusal, if any, is
  not one with -ESRCH.
- `sysinfo` for 32-bit callers is exact if and only if RAM and swap are each below 2^32 pages
  (`SysInfo.CompatExactIff`).
- The boot configuration's values are printed between quotes but quotes inside them are not escaped
  (`init/main.c:346-347`): `XbcCmdline.RenderReadsBackIff`.
- "Last five" log records: when the buffer is too small it is the newest records that are dropped
  (`KernelLog.AllFiveIff`).

## Model

| member | source | states |
|---|---|---|
| Sessions.ProcessTable.Setpgid | Practica1/linux-6.6.44/kernel/sys.c:1076-1145 | on 0 the process is in the group asked for (its own when 0 is asked) and nothing else has changed, on any other code nothing has; the code and the table are those of the declarative rule and the session invariant is kept, whichever group member the pid hash yields |
| Sessions.SetpgidCodes | Practica1/linux-6.6.44/kernel/sys.c:1081-1128 | for each of 0, -EINVAL, -ESRCH, -EACCES and -EPERM the exact condition on the fields of the caller, the process and the target group |
| Sessions.SetpgidMoves | Practica1/linux-6.6.44/kernel/sys.c:1130-1137 | the security hook has the last word; 0 moves the process into the group asked for, anything else changes nothing |
| Sessions.PipelineForms | Practica1/linux-6.6.44/kernel/sys.c:1096-1137 | a parent can put one child into a group of its own and another child into that same group |
| Sessions.ProcessTable.SetSpecialPids | Practica1/linux-6.6.44/kernel/sys.c:1217-1226 | the process ends in the given session and group, nothing else changes |
| Sessions.ProcessTable.KsysSetsid | Practica1/linux-6.6.44/kernel/sys.c:1228-1259 | refused with -EPERM to session leaders and to processes whose pid names a group, otherwise a new session and group named after the caller; keeps the invariant |
| Sessions.SetsidExactly | Practica1/linux-6.6.44/kernel/sys.c:1235-1251 | refused exactly to a session leader or when some process is in the group numbered after the caller; otherwise the caller leads a session and a group named after it |
| Sessions.EveryRunKeepsSessions | Practica1/linux-6.6.44/kernel/sys.c:1076-1259 | over every run of setpgid, setsid, fork, clone, exec, exit and reparenting: a group lies in one session, a process in the group numbered after a live process shares its session, leaders head their own session and group, a session named after a live process is led by it |
| Sessions.EveryRunFromBootKeepsSessions | Practica1/linux-6.6.44/kernel/sys.c:1076-1259 | the same from the boot state, without hypotheses |
| Sessions.SetsidIsolates | Practica1/linux-6.6.44/kernel/sys.c:1235-1251 | after a successful setsid the caller is the only process in the session and in the group named after it |
| Sessions.SetsidRefusedToGroupLeaders | Practica1/linux-6.6.44/kernel/sys.c:1240-1244 | a process-group leader can never start a session |
| Sessions.SetpgidStaysInSession | Practica1/linux-6.6.44/kernel/sys.c:1118-1137 | a successful setpgid moves one process, within its session, into a group all of whose members are in the caller's session |
| Sessions.OnlySetsidChangesSessions | Practica1/linux-6.6.44/kernel/sys.c:1228-1247 | no step but a process's own setsid takes it out of its session |
| Sessions.GroupClauseAloneIsNotInductive | Practica1/linux-6.6.44/kernel/sys.c:1122-1137 | a concrete table where "groups lie in one session" holds and one setpgid breaks it: the clause about group numbers is needed |
| XorCipher.RangesPartition | Practica2/linux-6.6.44/kernel/my_encrypt.c:136-145 | every byte index belongs to exactly one worker's range, also with more threads than bytes |
| XorCipher.NoScheduleRaces | Practica2/linux-6.6.44/kernel/my_encrypt.c:31-36 | under every interleaving of loads, stores, spawns and waits no worker leaves its range or the buffer, no two workers are at the same index, and the main thread reads only when no worker can still write |
| XorCipher.NoByteIsShared | Practica2/linux-6.6.44/kernel/my_encrypt.c:31-36 | an index that one worker touches at any time under any schedule is touched by no other worker at any time under any schedule |
| XorCipher.StoreXorsItsByte | Practica2/linux-6.6.44/kernel/my_encrypt.c:32-32 | no update is lost: whatever ran between a load and its store, the store xors the byte it finds with key[i mod key length] and changes no other byte |
| XorCipher.EveryScheduleRefinesSequentialPass | Practica2/linux-6.6.44/kernel/my_encrypt.c:136-166 | whatever the schedule, byte i of what reaches kernel_write is original[i] xor key[i mod key length] |
| XorCipher.DecryptUndoesEncrypt | Practica2/linux-6.6.44/kernel/my_decrypt.c:133-163 | encrypting with n threads and decrypting with m threads under any two schedules gives the original bytes |
| XorCipher.EveryScheduleFinishes | Practica2/linux-6.6.44/kernel/my_encrypt.c:160-166 | no deadlock or livelock: some step is enabled until the write, and the write is reached after exactly 2 * size + 3 * threads + 1 steps |
| XorCipher.XorWorker | Practica2/linux-6.6.44/kernel/my_decrypt.c:24-38 | a worker running alone xors every byte of its range with key[i mod key length] and touches nothing else |
| XorCipher.Driver.SpawnNext | Practica2/linux-6.6.44/kernel/my_encrypt.c:139-152 | one round of the spawning loop on the real buffer is the machine's Spawn step: worker i starts at i * (size / threads) and ends at (i + 1) * (size / threads), the last one at the end of the buffer |
| XorCipher.Driver.StoreByte | Practica2/linux-6.6.44/kernel/my_encrypt.c:32-32 | one store into the shared buffer is the machine's Store step |
| XorCipher.HandleFile | Practica2/linux-6.6.44/kernel/my_encrypt.c:136-166 | the driver over a shared array, under any schedule that reaches the write, writes as many bytes as it read, byte i being the original one xor key[i mod key length] |
| Ids.SetReExactly | Practica1/linux-6.6.44/kernel/sys.c:532-595 | which arguments setreuid (and setregid) accepts, with which code it refuses the others, and what a 0 sets: both ids as asked or kept, fs equal to e, s equal to e iff r was given or e was set to something else than the old r |
| Ids.SetExactly | Practica1/linux-6.6.44/kernel/sys.c:613-658 | the same for setuid: all four ids with the capability, e and fs without, and only to the real or saved id |
| Ids.SetResExactly | Practica1/linux-6.6.44/kernel/sys.c:670-743 | the same for setresuid, with the exit for calls that ask for nothing new |
| Ids.SetFsExactly | Practica1/linux-6.6.44/kernel/sys.c:866-900 | setfsuid changes the filesystem id only, exactly when it may, and returns the old one as the namespace names it or 65534 |
| Ids.SecondSetFsTells | Practica1/linux-6.6.44/kernel/sys.c:866-900 | setfsuid reports no failure, but the return value of a second call equals the id asked for iff the first call took it |
| Ids.UnprivilegedCallsDoNotGrow | Practica1/linux-6.6.44/kernel/sys.c:532-900 | without the capability a call only moves ids around among the three places, the filesystem id stays among them, a failed call changes nothing (setfsuid never counts as failed: it returns the old id) |
| Ids.UnprivilegedRunsDoNotGrow | Practica1/linux-6.6.44/kernel/sys.c:532-900 | the same over every run |
| Ids.AllEqualIsAbsorbing | Practica1/linux-6.6.44/kernel/sys.c:532-900 | a process whose ids are all equal keeps them over every unprivileged run |
| Ids.PrivilegedSetIsPermanent | Practica1/linux-6.6.44/kernel/sys.c:602-658 | a privileged setuid cannot be undone by any unprivileged run |
| Ids.PrivilegedSetReIsPermanent | Practica1/linux-6.6.44/kernel/sys.c:517-580 | so is a privileged setreuid that sets both ids to one: every later unprivileged run ends with all four ids equal to it |
| Ids.UnprivilegedReach | Practica1/linux-6.6.44/kernel/sys.c:670-900 | both directions: an unprivileged process can reach exactly the id quadruples over the ids it holds whose filesystem id is one of the other three |
| Credentials.CountsDeterminedByCreds | Practica1/linux-6.6.44/kernel/sys.c:485-496 | with no call in progress the credentials alone determine every reference count |
| Credentials.CredentialTable.SetUser | Practica1/linux-6.6.44/kernel/sys.c:485-496 | the prepared credential's reference moves to the structure of its new uid, or -EAGAIN and nothing moves |
| Credentials.CredentialTable.SetReuid | Practica1/linux-6.6.44/kernel/sys.c:532-595 | code and ids as specified, counts balanced on every path, on failure credentials and counts exactly as before |
| Credentials.CredentialTable.SetUid | Practica1/linux-6.6.44/kernel/sys.c:613-658 | the same for setuid |
| Credentials.CredentialTable.SetResuid | Practica1/linux-6.6.44/kernel/sys.c:670-743 | the same for setresuid, no-op exit included |
| Credentials.CredentialTable.FromMunged | Practica1/linux-6.6.44/kernel/sys.c:874-874 | the id by which the namespace names a kernel-wide id, or the overflow id when it has no name |
| Credentials.CredentialTable.SetFsuid | Practica1/linux-6.6.44/kernel/sys.c:866-900 | returns the old filesystem id, as the caller's namespace names it, on every path, changes only that id, leaves every count as it was |
| Credentials.CredentialTable.SetRegid | Practica1/linux-6.6.44/kernel/sys.c:375-429 | the gid code, which checks before it writes, meets the same specification as setreuid |
| Credentials.CredentialTable.SetGid | Practica1/linux-6.6.44/kernel/sys.c:441-475 | the same for setgid |
| Credentials.CredentialTable.SetResgid | Practica1/linux-6.6.44/kernel/sys.c:772-832 | the same for setresgid |
| Credentials.CredentialTable.SetFsgid | Practica1/linux-6.6.44/kernel/sys.c:910-944 | the same for setfsgid |
| Credentials.CredentialTable.SelectUser | Practica1/linux-6.6.44/kernel/sys.c:261-277 | the user lookup of setpriority and getpriority gives back every reference it takes, and finds a user exactly when some credential has that uid |
| Credentials.CredentialTable.OneEvent | Practica1/linux-6.6.44/kernel/sys.c:261-944 | one system call, fork or exit changes the ids of the processes as the specification of that event says |
| Credentials.CredentialTable.AnyRun | Practica1/linux-6.6.44/kernel/sys.c:261-944 | after any run by any processes, each call in its own namespace: every process has exactly the ids the specified calls, forks and exits make of the initial ones, every count equals the number of credentials pointing at the structure, and every credential points at the structure of its real uid |
| Credentials.CredentialTable.FamiliesAgree | Practica1/linux-6.6.44/kernel/sys.c:375-944 | the code of the uid family (write, then check) and that of the gid family (check, then write), run on the same calls from equal ids, return equal codes, setfsuid's and setfsgid's included, and end in equal ids, when user allocation and ucounts succeed |
| Priority.TaskList.SetOnePrio | Practica1/linux-6.6.44/kernel/sys.c:197-219 | the niceness changes exactly when the verdict is acceptance; the running error becomes the refusal, or 0 if it was -ESRCH |
| Priority.VerdictExactly | Practica1/linux-6.6.44/kernel/sys.c:197-212 | -EPERM iff the task is neither owned nor administrable, then -EACCES iff the niceness would fall below what limit and capability allow, then the hook's answer |
| Priority.AfterExactly | Practica1/linux-6.6.44/kernel/sys.c:221-283 | exactly the tasks that the selector names, that are owned or administrable, whose limit (or a capable caller) allows it and whose hook agrees take the new niceness; the others stay as they were |
| Priority.UnprivilegedRunsRespectLimits | Practica1/linux-6.6.44/kernel/sys.c:205-208 | over every run of calls by callers without the capability no niceness falls below both its initial value and 20 minus the task's limit |
| Priority.TaskList.Setpriority | Practica1/linux-6.6.44/kernel/sys.c:221-283 | exactly the selected and accepted entries get the clamped niceness; the error is the accumulated one |
| Priority.TaskList.Getpriority | Practica1/linux-6.6.44/kernel/sys.c:291-354 | 20 minus the lowest selected niceness, -ESRCH when nothing is selected |
| Priority.RunningMeaning | Practica1/linux-6.6.44/kernel/sys.c:197-283 | for any hooks: without a refusal 0 or -ESRCH, otherwise the last refusal's error, except that a last refusal with -ESRCH followed by an accepted match gives 0 |
| Priority.ReturnCodeIff | Practica1/linux-6.6.44/kernel/sys.c:221-283 | the code reads as documented (-ESRCH iff nothing matched, 0 iff something matched and every match was accepted, else the last refusal's error) iff the last refusal, if any, is not a hook's -ESRCH |
| Priority.HookNoSuchTaskIsMasked | Practica1/linux-6.6.44/kernel/sys.c:209-215 | a concrete list where a refusal is masked, the call returns 0 and the documented reading fails |
| Priority.GetAfterSet | Practica1/linux-6.6.44/kernel/sys.c:221-354 | after a 0 return getpriority on the same selector reads back 20 minus the niceness set iff every masked refusal was of a task at least as nice; so always when nothing is masked |
| SysInfo.DoSysinfo | Practica1/linux-6.6.44/kernel/sys.c:2777-2838 | the overflow-checked loop scales exactly when the unbounded total fits in 64 bits, and by the position of the unit's highest bit |
| SysInfo.BytesPreserved | Practica1/linux-6.6.44/kernel/sys.c:2805-2837 | for a power-of-two unit: scales iff (RAM + swap) * unit < 2^64, and on both exits every amount in bytes is unchanged |
| SysInfo.BytesPreservedIff | Practica1/linux-6.6.44/kernel/sys.c:2805-2837 | for any unit: bytes are preserved iff the call does not scale, or the unit is a power of two, or there is no memory |
| SysInfo.ReportedExactly | Practica1/linux-6.6.44/kernel/sys.c:2805-2837 | for a power-of-two unit: every amount in bytes with unit 1 when RAM and swap together are below 2^64 bytes, otherwise the report as filled in |
| SysInfo.SmallMachinesScale | Practica1/linux-6.6.44/kernel/sys.c:2805-2817 | a machine with fewer than 2^32 pages of RAM and of swap is always scaled |
| SysInfo.ShiftsCancel | Practica1/linux-6.6.44/kernel/sys.c:2888-2895 | the right shifts of the 32-bit path undo the left shifts for all eight amounts |
| SysInfo.CompatSysinfo | Practica1/linux-6.6.44/kernel/sys.c:2870-2912 | the unit-doubling loop ends at the page size and the report is the specified one |
| SysInfo.CompatExactly | Practica1/linux-6.6.44/kernel/sys.c:2870-2912 | every amount in bytes when both totals are below 2^32 bytes, otherwise the page counts with their lowest 32 bits |
| SysInfo.CompatExactIff | Practica1/linux-6.6.44/kernel/sys.c:2870-2912 | all fields fit 32 bits, and all amounts are exact in bytes iff RAM and swap are each below 2^32 pages |
| Subreaper.ProcessTree.Propagate | Practica1/linux-6.6.44/kernel/sys.c:2279-2295 | prunes at flagged processes and namespace inits, flags and descends otherwise |
| Subreaper.ProcessTree.WalkProcessTree | Practica1/linux-6.6.44/kernel/sys.c:2592-2592 | the recursive walk, changing flags as it goes, flags exactly what the original flags let it reach |
| Subreaper.ProcessTree.PrctlSetChildSubreaper | Practica1/linux-6.6.44/kernel/sys.c:2587-2593 | the prctl sets the subreaper bit, walks when switched on, and keeps the invariant |
| Subreaper.PrctlExactly | Practica1/linux-6.6.44/kernel/sys.c:2587-2593 | bit by bit: the caller's own bit is what was asked for, its descendants within the namespace are flagged when it is switched on, every other bit is as before |
| Subreaper.PruningIsHarmless | Practica1/linux-6.6.44/kernel/sys.c:2281-2294 | where flags are inherited the pruned walk leaves the flags an unpruned walk leaves |
| Subreaper.PruningIsHarmlessInEveryRun | Practica1/linux-6.6.44/kernel/sys.c:2279-2295 | so it does in every state of every run of fork, prctl and reparenting |
| Subreaper.PruningNeedsInheritance | Practica1/linux-6.6.44/kernel/sys.c:2281-2291 | without inheritance pruning skips a process |
| Subreaper.BelowSubreaperIsFlagged | Practica1/linux-6.6.44/kernel/sys.c:2587-2593 | everything below a subreaper within its namespace carries the flag |
| PrctlMm.AddressSpace.ValidateMapAddr | Practica1/linux-6.6.44/kernel/sys.c:1930-1989 | 0 iff all eleven addresses are in range, the five pairs ordered and the data limit kept |
| PrctlMm.GoodExactly | Practica1/linux-6.6.44/kernel/sys.c:1930-1985 | the eleven bounds and the five orders, one by one |
| PrctlMm.AddressSpace.SetMmMap | Practica1/linux-6.6.44/kernel/sys.c:1992-2097 | the whole-map setter in place |
| PrctlMm.AddressSpace.SetAuxv | Practica1/linux-6.6.44/kernel/sys.c:2100-2128 | the partial copy of the vector in place |
| PrctlMm.AddressSpace.SetMm | Practica1/linux-6.6.44/kernel/sys.c:2130-2265 | the dispatcher and single-address setter in place, every error in order |
| PrctlMm.FieldExactly | Practica1/linux-6.6.44/kernel/sys.c:2160-2265 | for each of 0, -EPERM, -EINVAL and -EFAULT the exact condition for a single address, and that 0 sets that address only |
| PrctlMm.MapExactly | Practica1/linux-6.6.44/kernel/sys.c:1992-2097 | when a whole map is taken and with which code it is refused; 0 sets all eleven addresses and, when passed, the vector: copied bytes, zeros behind them and in the last two words |
| PrctlMm.AuxvExactly | Practica1/linux-6.6.44/kernel/sys.c:2100-2128 | the codes of the partial copy, and every byte after it: copied, cleared in the last two words if reached, else kept |
| PrctlMm.OthersExactly | Practica1/linux-6.6.44/kernel/sys.c:2142-2160 | requests with spare arguments and the options that set no address: their codes, and that they change nothing |
| PrctlMm.RequestKeepsGoodAddresses | Practica1/linux-6.6.44/kernel/sys.c:2130-2265 | a failing request changes nothing; a successful address request leaves all addresses in range and ordered and changes only the named one |
| PrctlMm.RequestKeepsAuxvTerminated | Practica1/linux-6.6.44/kernel/sys.c:2016-2128 | for every copy length the vector keeps its size and its last two words stay AT_NULL |
| PrctlMm.EveryRunStaysGood | Practica1/linux-6.6.44/kernel/sys.c:1930-2265 | over every run: once one address request has succeeded the addresses stay in range and ordered, and the vector stays terminated |
| KernelLog.RetrieveLastFiveLogs | Practica1/linux-6.6.44/kernel/sys.c:2935-2993 | every return code; whether or not the log changes between the passes, fewer than buffer_length bytes are written, they are what fits of the wanted records, and the first wanted record is always there; with a stable log they are the last five records (all if fewer), whole iff shorter than the buffer |
| KernelLog.CopyLastLines | Practica1/linux-6.6.44/kernel/sys.c:2967-2978 | the copying pass leaves the fitting part of the wanted records in the buffer |
| KernelLog.WantedIsLastFive | Practica1/linux-6.6.44/kernel/sys.c:2967-2978 | the records the second pass looks at are the last five, or all there are; in a changed log those from the position where the last five began |
| KernelLog.FittingIsLongestPrefix | Practica1/linux-6.6.44/kernel/sys.c:2969-2978 | what is copied is the longest prefix of the records whose concatenation is shorter than the buffer |
| KernelLog.AllFiveIff | Practica1/linux-6.6.44/kernel/sys.c:2967-2978 | with a stable log: min(5, total) records are wanted, and all are returned iff together they are shorter than the buffer |
| KernelLog.EnoughRoom | Practica1/linux-6.6.44/kernel/sys.c:2932-2978 | a buffer with room for the wanted number of longest lines loses nothing |
| CommandLine.SetupCommandLine | Practica1/linux-6.6.44/init/main.c:617-673 | for all strings and offsets the copies stay inside the two allocations; the static line is extra line and given line; the saved line is extra line and boot line, with " -- " and the added init arguments behind it, or with the added ones inserted before its own |
| CommandLine.InsertInitArgs | Practica1/linux-6.6.44/init/main.c:658-663 | the in-place insertion before the boot line's own init arguments |
| CommandLine.PromisedOrderIff | Practica1/linux-6.6.44/init/main.c:650-663 | the saved line has the promised order, with the added init arguments set off by white space on both sides, iff the character before the own init arguments is white space |
| CommandLine.BareSeparatorIsGlued | Practica1/linux-6.6.44/init/main.c:658-663 | a concrete boot line where the order is not kept |
| CommandLine.ExtraLineStaysApart | Practica1/linux-6.6.44/init/main.c:638-649 | an extra line rendered from the boot configuration comes first and ends in a blank, so it is never glued to the boot line |
| CommandLine.NothingIsLost | Practica1/linux-6.6.44/init/main.c:658-663 | the result keeps all of extra line, boot line and added arguments, plus one separator character |
| BootParams.RepairEnvString | Practica1/linux-6.6.44/init/main.c:489-501 | memory holding name and value apart, quoted or not, ends up holding name=value and is otherwise untouched |
| BootParams.SameNameIff | Practica1/linux-6.6.44/init/main.c:559-560 | the strncmp over name and '=' finds exactly the entries of that name |
| BootParams.BootTables.SetInitArg | Practica1/linux-6.6.44/init/main.c:504-523 | appends in bounds, or records the panic without writing |
| BootParams.BootTables.UnknownBootoption | Practica1/linux-6.6.44/init/main.c:529-575 | filters, then appends an argument or stores a setting, never past slot MAX+1 |
| BootParams.BootTables.InitSetup | Practica1/linux-6.6.44/init/main.c:577-591 | clears slots 1 to MAX-1 |
| BootParams.ArgumentsReachInit | Practica1/linux-6.6.44/init/main.c:504-575 | without init= and settings, init gets all options and all arguments after "--" in order when there are at most MAX, and otherwise the panic names the first one too many |
| BootParams.StoreIsMapUpdate | Practica1/linux-6.6.44/init/main.c:551-562 | storing a setting is a map update: that name gets the value, every other name keeps its own |
| BootParams.EnvironmentIsMapOfLastWrites | Practica1/linux-6.6.44/init/main.c:504-591 | over every run the tables keep their shape (last slot NULL until a panic is pending, one entry per name), a panic stays, and without one each name has its last written value |
| BootParams.EnvironmentOverflowsIff | Practica1/linux-6.6.44/init/main.c:551-562 | from the initial tables, over every run of settings: a panic is pending at the end iff the names written, with HOME and TERM, are more than MAX + 1 distinct ones, or just MAX + 1 with the last of them written twice; it names the first setting that makes this so |
| BootParams.InitialTables | Practica1/linux-6.6.44/init/main.c:189-190 | the initial tables satisfy the invariant and map HOME and TERM only |
| BootParams.IgnoredBeforeInitIff | Practica1/linux-6.6.44/init/main.c:577-591 | init gets exactly the arguments that follow init= iff slot MAX was free or too few follow to reach it |
| BootParams.OldArgumentComesBack | Practica1/linux-6.6.44/init/main.c:581-590 | a concrete run from the initial tables where an argument from before init= is passed to init |
| XbcCmdline.Snprintf | Practica1/linux-6.6.44/init/main.c:321-321 | one bounded print continues a cut-off rendering correctly at any fill level |
| XbcCmdline.XbcSnprintCmdline | Practica1/linux-6.6.44/init/main.c:323-355 | for any size: the return value is the full length (or the first error), the buffer holds as much of the rendering as fits, terminated, and nothing past the size changes |
| XbcCmdline.RenderEndsInBlank | Practica1/linux-6.6.44/init/main.c:339-347 | a rendering is empty only without keys and otherwise ends in a blank |
| XbcCmdline.RenderReadsBackIff | Practica1/linux-6.6.44/init/main.c:323-355 | round trip: reading the rendered line as name and name="value" parameters gives every key with every value, in order, iff no value holds a quote |
| XbcCmdline.XbcMakeCmdline | Practica1/linux-6.6.44/init/main.c:359-388 | the counted space is exactly enough: the result is the whole rendering and its terminator, and is missing only without keys, on a name error or without memory |
| Reports.ValueOfDecimal | Proyecto/linux-6.6.44/kernel/my_sys.c:82-90 | reading a printed number gives it back |
| Reports.ScanUndoesPrint | Proyecto/Api/Backend/api_syscalls.c:80-81 | for every format whose numbers are separated, scanning what it prints gives the arguments, whatever follows |
| Reports.SwapReportRoundTrip | Proyecto/Api/Backend/api_syscalls.c:80-81 | the swap report fits its buffer for all 64-bit values and scans back to them |
| Reports.FaultsReportRoundTrip | Proyecto/Api/Backend/api_syscalls.c:110-111 | the same for the page-fault report |
| Reports.PagesReportRoundTrip | Proyecto/Api/Backend/api_syscalls.c:139-140 | the same for the memory-page report |
| Reports.ReportTexts | Proyecto/linux-6.6.44/kernel/my_sys.c:82-155 | the three reports letter by letter |
| Reports.GetSwapInfo | Proyecto/linux-6.6.44/kernel/my_sys.c:70-100 | the buffer holds the report of total, used and free kilobytes, as 64-bit words |
| Reports.GetPageFaultsInfo | Proyecto/linux-6.6.44/kernel/my_sys.c:106-130 | the buffer holds the report of file pages less free pages, as a 64-bit word, and of mapped file pages |
| Reports.GetMemoryPagesInfo | Proyecto/linux-6.6.44/kernel/my_sys.c:138-162 | the buffer holds the report of the active and the inactive pages, each summed as 64-bit words |
| Reports.PageFaultsThroughApi | Proyecto/Api/Backend/api_syscalls.c:100-117 | from node statistics through kernel buffer and scan to the API's numbers: exact with at least as many file pages as free pages, else wrapped around |
| Reports.MemoryPagesThroughApi | Proyecto/Api/Backend/api_syscalls.c:129-146 | the same for the page sums, exact unless a sum exceeds 64 bits |
| Reports.SwapInfoThroughApi | Proyecto/Api/Backend/api_syscalls.c:70-86 | from page counts through kernel buffer and scan to the API's numbers: exact kilobytes, and used + free = total |

## Left out

- Failure exits of the XOR drivers (thread creation, allocation, file opening): reads are taken as full, thread
  creation as successful and the thread count as positive, so nothing is claimed about those exits.
- Locking, RCU, ucounts limits and PF_NPROC_EXCEEDED, proc and autogroup notifications of setsid.
- Pid namespaces: Sessions and Priority work with the numbers of one namespace; Subreaper knows namespace inits.
- commit_creds, prepare_creds, alloc_uid, find_user, pid_task, walk_process_tree, kmsg_dump_get_line, parse_args and
  the fork code are not in the repository: short contracts stand for them; walk_process_tree visits children in
  the order of their birth.
- The overflow id shown for ids without a name in the caller's namespace is its default, 65534; the sysctl that
  changes it is not modelled. Namespaces are one-to-one, as the code that installs their maps enforces.
- Each process has its own credential: threads sharing one credential object are counted as one.
- The executable-file setter reached through PR_SET_MM: only its return code.
- KernelLog.RetrieveLastFiveLogs: the int counters are unbounded; buffers are assumed below 2^31 bytes, as kmalloc
  guarantees.
- XbcCmdline.XbcSnprintCmdline: lengths are unbounded; the boot configuration is limited far below 2^31 bytes.
- SysInfo.CompatSysinfo: uptime, load averages and the process count, which the 32-bit call narrows without scaling.
- obsolete_checksetup and the sysctl alias table: a yes or no per option, init= and rdinit= being events of their own.
- How the node statistics behind the two page reports are counted, and the conversion of scanned numbers to JSON
  doubles.
- Reports.GetSwapInfo: pages of 4 KiB (a left shift by 2).
- get_ram_stats and its reader (printed and scanned formats differ), procesos_info, the large prctl switch, rlimits,
  uname, getrusage, start_kernel, the HTTP server: easy or opaque members, nothing claimed.
