# A Dafny model of MinC

MinC runs POSIX programs on Windows: its kernel library `libposix` answers Unix system calls
on top of Win32. This project models the parts of it that are algorithms of their own, and
proves what they are for. Code that changes things step by step is modelled by methods over
arrays and objects, each proved against a specification function; the laws about those
functions are lemmas. One module models one component:

- `ForkStack`: copying and relocating a thread's stack for `fork()`.
- `Sids`, `Credentials`: user ids as Windows SIDs, and the set\*uid calls above them.
- `Modes`, `Acl`, `AclCreate`: Unix modes and owners kept in Windows access control lists.
- `Paths`: Unix paths as Windows paths, and back.
- `Quoting`, `Shebang`: the command line of a new process, and the `#!` line of a script.
- `Select`: `select()` on top of `poll()`.
- `Descriptors`, `DescriptorRuns`: the descriptor table and the handles behind it.
- `Route`: the list of interfaces as a stream of routing messages.
- `Signals`: signal actions, the signal mask, and nested suspension.
- `Common`: what several of them share.

`dafny verify dfyconfig.toml` checks the whole project.

## What is assumed of Windows and of callers

- The answers of Windows and of device drivers are parameters: whether a path exists, what a
  descriptor reports, whether a token can be had, a duplicated handle, whether a device closed
  a handle and cleared its node, a signal that arrives.
- Memory in `ForkStack` is an array of words, and an address is the index of a word. The chain
  of saved base pointers rises strictly, the outermost frame has room for its return address,
  there is room below `dest`, and the live region of the parent does not overlap it.
- A mask of bits is a set of bit numbers; `+` on masks is set union, and is used only where the
  operands have no bit in common. The type mask of an access list scan is three flags.
- The machine SID has authority 5, at least two sub-authorities, and 21 as the first of them.
- The buffer of a `#!` line has a place for the last terminator, and the caller's vector has
  places for the arguments and the null pointer. `Shebang.TerminatorFits` says which lines that
  fill their buffer leave that place, and `Shebang.VectorFits` which lines fit 17 places: at most
  17 arguments are ever found, and with their end they fit exactly if there are at most 16.
- A value of an OS handle is not given out twice. Error numbers of failed calls are positive.
- A socket address of Windows has at most 128 bytes (`Route.Short`); without that, a reader of
  the interface list meets every message exactly if all lengths fit their 16-bit fields.

## Where the code is not what one expects

Each of these is proved, with the exact condition under which the code does meet the
expectation, and with an input at which it does not.

- A user id survives the way to a SID and back exactly if it is representable: ids below
  10^8 become the SID "None" (but for TrustedInstaller's), and some ids above come back as
  others, for example those whose middle digits are 80 (`Sids.RidRoundTrip`, `Sids.SmallIdsAreNone`).
- `setreuid()` ignores its second argument unless the first one is the real user id, and always
  for root (`Credentials.SetReUidIgnoresEuid`, `Credentials.EuidIgnored`). `seteuid()` that fails
  after the identity was switched leaves the new identity behind (`Credentials.FailedSetEuid`,
  `Credentials.FailedButSwitched`).
- A new file shows the requested bits for "other" unless its directory has no access list; then
  it has none, and shows all bits (`AclCreate.CreateShows`). chown() replaces a null list by an
  empty one, and so can change the mode that stat() shows (`Acl.ChownKeepsMode`).
- An argument that ends in a backslash is not read back by the C runtime, because stpquot() does
  not double backslashes before the closing quote. Nor is one with a quote behind more than 254
  backslashes, because the counter is a `char` and wraps. All others are
  (`Quoting.CommandLineRoundTrip`, `Quoting.NotReadBack`).
- A `#!` line is split into its words exactly if what is kept of it ends within a word and has no
  further mark, and only spaces are cut off. One that ends in a space, or has no word, is given
  an empty last argument (`Shebang.LineIsItsWords`, `Shebang.NotItsWords`).
- A path below /proc is printed with a second slash (`Paths.PathRoundTrip`,
  `Paths.ProcPathDoubled`). One trailing slash is stripped at most, and only if every prefix is
  present (`Paths.StripsAll`, `Paths.SlashesLeft`).
- The return value of select() counts entries, not bits, so an event that was reported but not
  requested can make it larger than the number of bits left set (`Select.SelectTotal`,
  `Select.CountsTooMany`).
- dup() with a full table leaves a handle behind without an owner (`DescriptorRuns.DupKeeps`,
  `DescriptorRuns.DupLeaks`), and a dup2() that fails leaves two slots with one handle
  (`DescriptorRuns.Dup2Keeps`, `DescriptorRuns.Dup2Shares`). close() of a descriptor that is not
  open answers 0 and dup() of one EFTYPE, where EBADF is due (`DescriptorRuns.CloseAnswers`,
  `DescriptorRuns.DupOfClosedAnswers`, `DescriptorRuns.NotOpenAnswers`). pipe() answers 0 when the
  table has no room for its ends (`DescriptorRuns.PipeAnswers`).
- sigaction() with a null action sets the default action instead of only asking
  (`Signals.NullActionAsks`, `Signals.NullActionResets`), and no mask keeps a signal from being
  delivered (`Signals.IsDelivered`, `Signals.MaskIsIgnored`, `Signals.BlockedEnds`); POSIX.1-2017
  XSH asks for both to be otherwise (sigaction(), and section 2.4 on blocked signals).

## Model

| member | source | states |
|---|---|---|
| ForkStack.CopyStack | libposix/sys/sched.c:47-82 | dest falls by exactly Top - src; every word of [src, Top) is copied, saved base pointers shifted by one constant (or to the old dest), the outermost return address replaced by threxit; no other word changes; the depth is the number of frames; the recursion ends |
| ForkStack.PlaceFrame | libposix/sys/sched.c:74-79 | one frame is placed directly below dest, linked to the old dest, and nothing else changes |
| ForkStack.MemCpy | libposix/sys/sched.c:75-75 | the destination words become the source words as they were, and no others change |
| ForkStack.WordAdded | libposix/sys/sched.c:67-80 | a frame placed below relocated outer frames extends the relocation by that frame, word by word |
| ForkStack.BasesInRange | libposix/sys/sched.c:61-67 | every frame of the chain lies between src and the top with its return address inside |
| ForkStack.BasesAre | libposix/sys/sched.c:61-68 | the frames that are copied start at src, each holds the next, and the last is the first that holds 0 or the thread frame |
| ForkStack.TopIs | libposix/sys/sched.c:61-73 | the region ends at the origin of the stack if the last frame holds 0, and at the thread frame otherwise |
| ForkStack.ChainMoved | libposix/sys/sched.c:61-80 | if each saved base pointer is linked to its shifted place, following them in the new stack visits the parent's frames shifted by one constant and ends at the old dest |
| ForkStack.ForkedChain | libposix/sys/sched.c:103-112 | in the finished child stack the chain is the parent's, shifted, same number and sizes of frames, without entering the old stack |
| ForkStack.AddCurrentFrame | libposix/sys/sched.c:109-112 | source and dest fall by offset and the current frame is copied exactly |
| ForkStack.ChildStackBuilt | libposix/sys/sched.c:103-112 | relocation followed by the copy of the current frame yields one contiguous shifted image with its chain |
| ForkStack.TaskCopy | libposix/sys/sched.c:103-115 | from a forkable parent stack: new source and dest, every word of memory, and the child's chain of frames |
| ForkStack.ChildWord | libposix/sys/sched.c:47-115 | what the child has for each word of the parent's live region: moved base pointers, dest for a base pointer of 0, threxit for the outermost return address, and all else as it was |
| ForkStack.RestKept | libposix/sys/sched.c:47-115 | no word outside the child's new stack changes |
| Sids.RidPosixOfDigits | libposix/sys/stat.c:51-77 | which id is read from the SID of any digits, special cases included |
| Sids.RidWinDigits | libposix/sys/stat.c:78-107 | for an id that is not negative, C's truncating division and remainder pick the SID that its decimal digits name |
| Sids.DigitsRoundTrip | libposix/sys/stat.c:51-107 | the SID named by digits a, s, q reads back as their number if and only if the digits are representable |
| Sids.RidRoundTrip | libposix/sys/stat.c:51-107 | for every 32-bit id: it survives rid_win then rid_posix if and only if it is representable |
| Sids.RidWinInjective | libposix/sys/stat.c:78-107 | distinct representable ids have distinct SIDs |
| Sids.SmallIdsAreNone | libposix/sys/stat.c:78-107 | every id below 10^8 but TrustedInstaller's becomes SidNone, which reads back as 521000513 |
| Sids.MinusOneIsNone | libposix/sys/stat.c:78-88 | the id -1 becomes SidNone |
| Sids.WellKnownIds | libposix/sys/stat.c:51-77 | the ids of SYSTEM, Administrators, Everyone, Authenticated Users, TrustedInstaller and of a SID without sub-authorities |
| Sids.WellKnownSids | libposix/sys/stat.c:78-107 | the SIDs of the ids of SYSTEM, Administrators, Everyone and TrustedInstaller |
| Sids.DomainAccounts | libposix/sys/stat.c:61-64 | an account of the machine reads as 521000000 and its relative id, one of any other domain as 621000000 and its relative id |
| Credentials.UidRoundTrip | libposix/sys/syscall.c:173-201 | an unsigned uid survives the way to a SID and back if and only if its signed reading is representable |
| Credentials.Task.VfsSetEuid | libposix/vfs/vfs_syscall.c:118-142 | the identity becomes the given SID unless the token is refused; success if it was the same already or the switch went through |
| Credentials.Task.SysSetEuid | libposix/sys/syscall.c:264-286 | state and result for every uid and outcome |
| Credentials.Task.SysSetUid | libposix/sys/syscall.c:287-303 | state and result for every uid and outcome |
| Credentials.Task.SysSetReUid | libposix/sys/syscall.c:304-323 | state and result for every pair of uids and outcome |
| Credentials.Task.SysSetResUid | libposix/sys/syscall.c:324-338 | state and result for every triple of uids and outcome |
| Credentials.UnprivilegedStays | libposix/sys/syscall.c:264-338 | over every run of the four calls, once the effective user is not root its SID never changes, and the real uid is what it was or that user's |
| Credentials.SetUidTakes | libposix/sys/syscall.c:287-298 | after a successful setuid(u) with u other than 0, both ids agree, and are u if and only if u is the old effective id or representable |
| Credentials.SetUidPermanent | libposix/sys/syscall.c:264-338 | after root succeeds in setuid(u) for a representable u that is not root, getuid() and geteuid() return u after every run of calls |
| Credentials.FailedSetEuid | libposix/sys/syscall.c:264-281 | a failed seteuid() leaves the state alone if and only if the caller was not root or the token was refused outright |
| Credentials.FailedButSwitched | libposix/sys/syscall.c:264-281 | root's seteuid() whose token cannot be closed answers the error and has switched the user |
| Credentials.SetReUidIgnoresEuid | libposix/sys/syscall.c:304-318 | the second argument of setreuid() makes no difference if and only if the first is 0, the real user is root, or the first is not the real id |
| Credentials.EuidIgnored | libposix/sys/syscall.c:304-318 | root's setreuid(0, u) for another u answers 0 and leaves root as it was |
| Credentials.RootReadsAsZero | libposix/sys/syscall.c:173-201 | which users read as 0, and that a real user that was never set is the effective one |
| Credentials.UnprivilegedAnswers | libposix/sys/syscall.c:264-298 | who is not root gets 0 for the own id and EPERM for every other, from seteuid() and setuid() |
| Credentials.RootTakes | libposix/sys/syscall.c:264-298 | root's seteuid() and setuid() of a representable user answer 0 and take effect, the real user changing in setuid() only |
| Credentials.RootSetsBoth | libposix/sys/syscall.c:304-338 | root's setreuid() and setresuid() of a representable real user that is not the present one answer 0 and set both users; setresuid() saves its third argument |
| Credentials.RootSetsEffective | libposix/sys/syscall.c:312-313 | with the real user as first argument, root's setreuid() sets the effective user and nothing else |
| Credentials.FailedSetResUid | libposix/sys/syscall.c:324-338 | a setresuid() that fails answers EPERM and saves nothing |
| Modes.ModeParts | libposix/sys/stat.c:161-182 | each class of the POSIX mode depends on its own class of the Windows mode only |
| Modes.Round | libposix/sys/stat.c:161-226 | for one class: any mask with the rwx bits that mode_win writes is read by mode_posix as the class's rwx bits |
| Modes.SpecialRound | libposix/sys/stat.c:161-226 | set-id and sticky bits survive the way to a Windows mode and back |
| Modes.ModeRoundTrip | libposix/sys/stat.c:161-226 | the whole mode survives, but for file types that are not known |
| Modes.ModeWinBits | libposix/sys/stat.c:183-226 | which access bit of which class each mode bit becomes |
| Modes.ModePosixBits | libposix/sys/stat.c:161-182 | which access bits of which class show as each of the twelve permission bits |
| Modes.PermissionsRound | libposix/sys/stat.c:161-226 | each of the twelve permission bits survives |
| Modes.FileTypeNames | libposix/sys/stat.c:183-226 | which type each combination of the type bits is |
| Modes.FileTypeRound | libposix/sys/stat.c:161-226 | the type bits survive if they name a type, and are lost otherwise |
| Modes.UserShows | libposix/sys/stat.c:161-226 | a user mask with the right rwx bits shows the user's rwx bits in the whole mode |
| Modes.GroupShows | libposix/sys/stat.c:161-226 | the same for the group |
| Modes.OtherShows | libposix/sys/stat.c:161-226 | the same for other |
| Acl.OwnerTypeStep | libposix/vfs/vfs_acl.c:48-85 | a class is assigned only if it was free, and is then taken; no other class changes |
| Acl.OwnerTypeAlike | libposix/vfs/vfs_acl.c:48-85 | classification ignores rwx bits, SIDs, and all flags but inherit-only |
| Acl.MaskIsAssigned | libposix/vfs/vfs_acl.c:48-85 | the running type mask is exactly the set of classes assigned so far |
| Acl.AssignedOnce | libposix/vfs/vfs_acl.c:48-85 | in every scan each class is assigned to at most one entry |
| Acl.ScanAlike | libposix/vfs/vfs_acl.c:254-265 | the scan gives the same kinds to lists whose entries it cannot tell apart |
| Acl.ClassesAre | libposix/vfs/vfs_acl.c:48-85 | the type mask of a list, in terms of its entries alone |
| Acl.FoundIsLast | libposix/vfs/vfs_acl.c:48-85 | for user, group and other the scan finds the last entry that may change the list; the last that may delete, or is the second of its sort that may change or read it; and the last that may read it, or may delete with the group already found |
| Acl.ChmodEntries | libposix/vfs/vfs_acl.c:254-265 | the list in place becomes the specified one: the entry of each class has its rwx bits replaced |
| Acl.VfsAclChmod | libposix/vfs/vfs_acl.c:237-272 | the list of the result, for a descriptor without a list, with a null list, and with a list |
| Acl.ChmodScan | libposix/vfs/vfs_acl.c:237-272 | chmod does not change the classification |
| Acl.ChmodFound | libposix/vfs/vfs_acl.c:237-272 | what was found for a class is found, with the new rwx bits |
| Acl.ChmodKeeps | libposix/vfs/vfs_acl.c:237-272 | each entry keeps its type, flags, SID and every mask bit outside rwx; entries without a class keep all |
| Acl.ChmodTwice | libposix/vfs/vfs_acl.c:237-272 | two chmods in a row equal the second alone |
| Acl.VfsAclStat | libposix/vfs/vfs_acl.c:327-373 | the reverse loop reads mode and SIDs of each class from the entry that the scan assigned to it, and defaults otherwise |
| Acl.StatShows | libposix/vfs/vfs_acl.c:353-365 | stat shows mask and SID of the last entry for each class |
| Acl.StatKeeps | libposix/vfs/vfs_acl.c:327-373 | and the owners of the descriptor and the modes it started from where no entry is for a class |
| Acl.SpecialShown | libposix/vfs/vfs_acl.c:366-371 | set-user-id shows for what Administrators own and set-group-id for the group SYSTEM |
| Acl.ChmodThenStat | libposix/vfs/vfs_acl.c:237-373 | stat after chmod shows the same rwx bits for each class that the scan finds |
| Acl.NoListShows | libposix/vfs/vfs_acl.c:327-373 | without a list, or with a null one, chmod changes nothing and stat shows all nine bits |
| Acl.ChownEntries | libposix/vfs/vfs_acl.c:296-317 | the new list is the specified one and the old list is not changed |
| Acl.VfsAclChown | libposix/vfs/vfs_acl.c:273-326 | the list that is built and the list that is set, for a descriptor without a list, with a null list, and with a list |
| Acl.ChownScan | libposix/vfs/vfs_acl.c:273-326 | chown does not change the classification |
| Acl.ChownFound | libposix/vfs/vfs_acl.c:273-326 | what was found for a class is found, with its new SID |
| Acl.ChownKeeps | libposix/vfs/vfs_acl.c:273-326 | number, order, types, masks and flags of the entries are kept |
| Acl.ChownThenStat | libposix/vfs/vfs_acl.c:273-373 | stat after chown shows the new user and group where those classes exist and the new SID is not None, and the same modes as before |
| Acl.ChownKeepsMode | libposix/vfs/vfs_acl.c:273-373 | stat shows the same modes before and after chown if and only if there was no null list, or the mode it starts from has all bits |
| Acl.ChownMinusOne | libposix/vfs/vfs_acl.c:273-326 | ids of -1, mapped to SidNone, leave every entry as it is |
| Acl.ChownChmod | libposix/vfs/vfs_acl.c:237-326 | chown and chmod commute |
| AclCreate.EditEntry | libposix/vfs/vfs_acl.c:202-216 | a kept entry is edited in place, or copied when its SID is replaced |
| AclCreate.InheritEntries | libposix/vfs/vfs_acl.c:199-221 | the reverse loop yields the kept entries in order, the edits of the directory's own list, and the type mask |
| AclCreate.VfsAclCreate | libposix/vfs/vfs_acl.c:177-236 | the list that is built, the list that is set if any, and what becomes of the directory's list in memory |
| AclCreate.InheritedAre | libposix/vfs/vfs_acl.c:199-221 | the inherited entries are those found for a class or whose class was taken, in their order |
| AclCreate.NewEntryIs | libposix/vfs/vfs_acl.c:202-216 | a new entry bit by bit: the two inheritance flags are those asked for, other flags and bits outside rwx are kept, and an account of the machine becomes the owner |
| AclCreate.CreateIs | libposix/vfs/vfs_acl.c:177-236 | the whole new list, with the entry for Authenticated Users exactly if no entry was for other |
| AclCreate.EditedAre | libposix/vfs/vfs_acl.c:199-221 | which entries of the directory's own list are edited in memory |
| AclCreate.OtherTakenFirst | libposix/vfs/vfs_acl.c:48-85 | an entry that leaves "other" free is classified alike if "other" was taken before |
| AclCreate.InheritedScan | libposix/vfs/vfs_acl.c:199-221 | dropped entries do not matter to the scan of the new list, and an entry appended for "other" does not disturb it |
| AclCreate.InheritedFound | libposix/vfs/vfs_acl.c:199-221 | what was found for a class in the directory is found, edited, in the new list |
| AclCreate.CreateFound | libposix/vfs/vfs_acl.c:177-236 | the entries for user, group and other in every created list; "other" always exists |
| AclCreate.CreateStat | libposix/vfs/vfs_acl.c:177-236 | what stat reads from a created list, mask by mask and SID by SID |
| AclCreate.CreateThenStat | libposix/vfs/vfs_acl.c:177-373 | stat on a file for which a list was set shows the requested rwx bits for other always, and for user and group where the directory had them, with the owner in place of an account of the machine |
| AclCreate.CreateShows | libposix/vfs/vfs_acl.c:177-373 | stat shows the requested rwx bits for other if and only if the directory has a list or all three are requested; without a list all nine bits show |
| AclCreate.CreateKeepsClasses | libposix/vfs/vfs_acl.c:177-236 | a list made from a directory has the classes of the directory, and other |
| Paths.NameiData.PathRead | libposix/vfs/vfs_namei.c:35-60 | one component is appended behind a backslash, colons replaced; base, the read position, and the character that ended it |
| Paths.NameiData.PathCopy | libposix/vfs/vfs_namei.c:61-81 | the whole rest of the source is appended, translated |
| Paths.NameiData.Walk | libposix/vfs/vfs_namei.c:139-146 | the loop ends, and resolves the whole source whichever prefixes exist |
| Paths.NameiData.VfsLookup | libposix/vfs/vfs_namei.c:132-148 | with any flags: what is resolved, and that the walk closes if and only if all prefixes are present |
| Paths.AllPresentIs | libposix/vfs/vfs_namei.c:139-144 | a walk that closes has asked for every prefix that ends before a slash, the first included |
| Paths.StripsAll | libposix/vfs/vfs_namei.c:35-60 | with the strip flag no trailing slash is left if and only if there was none, or one only and all prefixes are present |
| Paths.SlashesLeft | libposix/vfs/vfs_namei.c:35-60 | two paths that keep a trailing slash: one with two of them, and one with a prefix that is missing |
| Paths.WalkedNext | libposix/vfs/vfs_namei.c:35-60 | the early exit and the component walk meet: a slash read is the backslash before what follows |
| Paths.PathatWin | libposix/sys/namei.c:100-179 | an absolute path resolves to root, backslash and the translated rest, independent of which prefixes exist |
| Paths.ResolveIs | libposix/sys/namei.c:100-111 | an absolute path resolves below the current drive, and one below /proc among the devices |
| Paths.PrintChars | libposix/sys/namei.c:37-81 | the loop prints the source up to the size, and remembers the last dot that it wrote |
| Paths.PathnpPosix | libposix/sys/namei.c:37-81 | text and end position: mount point, /proc or plain, translated back, a final ".lnk" chopped |
| Paths.DrivePrinted | libposix/sys/namei.c:50-52 | a path on a drive is printed below /mnt without its colon |
| Paths.DevicePrinted | libposix/sys/namei.c:53-55 | a path among the devices is printed below /proc |
| Paths.PrintedCut | libposix/sys/namei.c:59-63 | how much is printed when there is too little room |
| Paths.LinkChopped | libposix/sys/namei.c:72-76 | a final ".lnk" is chopped, and a text without dots stays |
| Paths.BackAllSame | libposix/sys/namei.c:37-81 | translation there and back is the identity if and only if there is no colon or backslash |
| Paths.PathRoundTrip | libposix/sys/namei.c:37-179 | every absolute path that fits is printed as it was after being resolved if and only if it is not below /proc, has no colon or backslash, and its last dot does not start ".lnk" |
| Paths.ProcPathDoubled | libposix/sys/namei.c:37-111 | a path below /proc is printed with the slash behind /proc doubled |
| Quoting.Stpquot | libposix/string.c:35-59 | appends the quoted argument, with a counter that wraps at 8 bits |
| Quoting.PutBackslashes | libposix/string.c:35-59 | the inner loop writes the counter modulo 256 backslashes |
| Quoting.WrappedIsShorter | libposix/string.c:35-59 | the wrapping counter never writes more than the ideal one, and the same if and only if runs before quotes fit |
| Quoting.StpquotExact | libposix/string.c:35-59 | stpquot() is exact if and only if no quote follows more than 254 backslashes |
| Quoting.EscapedParses | libposix/string.c:35-59 | the C runtime reads a quoted body back, for every argument that neither ends in a backslash nor makes the counter wrap, and whatever follows |
| Quoting.Misread | libposix/string.c:35-59 | every other argument is read as something else |
| Quoting.CounterWraps | libposix/string.c:35-59 | a quote behind more than 254 backslashes is read behind too few, whatever follows |
| Quoting.LineHead | libposix/sys/syscall.c:68-102 | the first of a line of quoted arguments is read back exactly if it reads back alone, and the rest is then read as a line of its own |
| Quoting.LineRoundTrip | libposix/sys/syscall.c:68-102 | parsing a line of quoted arguments gives them back if and only if each reads back alone, with the counter that wraps or an ideal one |
| Quoting.ArgvWin | libposix/sys/syscall.c:68-102 | the line is the command and the quoted arguments from the second on, up to the first that would exceed the limit |
| Quoting.AcceptedIs | libposix/sys/syscall.c:86-92 | the arguments on the line are those up to the first that would exceed the limit if it were written as it is, in quotes, behind a space |
| Quoting.AllAccepted | libposix/sys/syscall.c:86-92 | all arguments are on the line if the whole line fits the limit |
| Quoting.CommandLineRoundTrip | libposix/sys/syscall.c:68-102 | for all arguments: the tail of the line that argv_win() builds is read as exactly the accepted arguments if and only if none of them ends in a backslash or has a quote behind more than 254 |
| Quoting.WholeLineRoundTrip | libposix/sys/syscall.c:68-102 | a command line that fits is read as all of its arguments if and only if none ends in a backslash or has a quote behind more than 254 |
| Quoting.NotReadBack | libposix/string.c:35-59 | the shortest arguments of either kind are not read back |
| Shebang.ArgvPosix | libposix/sys/syscall.c:103-138 | the buffer holds the arguments of the line as terminated strings at the returned offsets, a null pointer ends the vector, their number is returned, and no character behind the end of the line is changed |
| Shebang.VectorFits | libposix/sys/syscall.c:103-147 | there are at most 17 arguments, and with the null pointer they fit 17 places if and only if the whole text has at most 16 |
| Shebang.TerminatorFits | libposix/sys/syscall.c:103-159 | a line that fills its buffer leaves a place for the terminator if and only if a character ends it or a space follows 16 complete arguments |
| Shebang.Scan | libposix/sys/syscall.c:103-138 | the loop splits in place, character by character, and stops at the line end, the size, or the 17th word |
| Shebang.TextEndIs | libposix/sys/syscall.c:110-114 | the text ends before the first terminator, carriage return or newline, and at the size |
| Shebang.CutIs | libposix/sys/syscall.c:120-122 | it is cut at the first space after 16 complete arguments |
| Shebang.AfterMarkIs | libposix/sys/syscall.c:115-117 | of a word with marks, what follows the last one is left |
| Shebang.WordsAre | libposix/sys/syscall.c:123-130 | a text without spaces is one word or none, and a space ends a word |
| Shebang.ArgsNext | libposix/sys/syscall.c:103-138 | what one more character does to the arguments of a text |
| Shebang.ArgsOfPlain | libposix/sys/syscall.c:103-138 | without marks the arguments are the non-empty words, and an empty one if the text does not end in a word |
| Shebang.ArgsGrow | libposix/sys/syscall.c:103-138 | a longer text never has fewer arguments |
| Shebang.ArgsAreWords | libposix/sys/syscall.c:103-138 | the arguments of a text are its words if and only if it ends within a word and has no mark |
| Shebang.LineIsItsWords | libposix/sys/syscall.c:103-138 | every `#!` line is split into exactly its words if and only if what is kept ends within a word and has no further mark, and only spaces are cut off |
| Shebang.ShortLineIsItsWords | libposix/sys/syscall.c:103-138 | with at most 16 words, if and only if the body ends within a word and has no further mark |
| Shebang.NotItsWords | libposix/sys/syscall.c:103-138 | a text that ends in a space and a text with a mark, whose arguments are not their words |
| Select.FdsetPoll | libposix/sys/select.c:35-48 | each member of the set gets its entry and flags; other entries are not changed |
| Select.FdsetSelect | libposix/sys/select.c:49-65 | a member stays if and only if its entry reports one of the flags; the count is the number of entries that do |
| Select.PollfdWin | libposix/sys/poll.c:35-62 | the entries to poll, the descriptors out of range, and the refusal of a bad count |
| Select.PolledIndicesAre | libposix/sys/poll.c:35-62 | an entry is polled if and only if it is in the window and its descriptor is valid |
| Select.SelectSets | libposix/sys/select.c:83-133 | the three sets keep the members whose entry reports one of their flags, above the window they keep all, and the counts are added |
| Select.SelectFds | libposix/sys/select.c:83-133 | the three sets keep exactly the scanned members with a reported flag and all above the window; the result is the sum of counts; on failure no set changes |
| Select.SelectedAre | libposix/sys/select.c:83-133 | the sets that are left, in terms of what was asked and reported |
| Select.EntriesAre | libposix/sys/select.c:98-106 | the events that are asked for, descriptor by descriptor |
| Select.AnsweredAre | libposix/sys/poll.c:35-62 | which entries get what the drivers report |
| Select.SelectedMembers | libposix/sys/select.c:119-128 | which members stay in each set, event by event |
| Select.MembersAre | libposix/sys/select.c:49-65 | counting bit by bit gives the number of members |
| Select.CountIsMembers | libposix/sys/select.c:49-65 | the count is at least the number of bits left, and equal if and only if no entry reports for a descriptor outside the set |
| Select.CountedExactly | libposix/sys/select.c:83-133 | the same for select(), for every poll outcome |
| Select.SelectTotal | libposix/sys/select.c:83-133 | the return value is never less than the number of bits left in the present sets, and equal if and only if no entry reports for a descriptor outside a present set |
| Select.RequestedIsExact | libposix/sys/select.c:83-133 | if only requested events are reported, the return value is the number of bits left in the present sets |
| Select.CountsTooMany | libposix/sys/select.c:83-133 | an error reported for a descriptor in the read set only is counted beside an empty error set |
| Descriptors.Lowest | libposix/sys/vnode.c:47-63 | the first slot from an offset that is free, or the table size |
| Descriptors.Task.FdPosix | libposix/sys/vnode.c:47-63 | the node is stored in the lowest free slot with its own number, or EMFILE and no change |
| Descriptors.Task.VfsClose | libposix/vfs/vfs_unistd.c:35-58 | for every answer of the device: what becomes of the handle, the cleared or kept slot with its number, and the result |
| Descriptors.Task.VfsDupFd | libposix/vfs/vfs_fcntl.c:35-67 | the copy, its handle and its number, also when duplication fails |
| Descriptors.Task.SysDupFd | libposix/sys/fcntl.c:136-150 | whole new state and result, every error included |
| Descriptors.Task.SysDup2 | libposix/sys/unistd.c:459-476 | whole new state and result, every error included |
| Descriptors.Task.SysClose | libposix/sys/unistd.c:500-512 | whole new state and result |
| Descriptors.Task.SysCloseFrom | libposix/sys/unistd.c:513-538 | whole new state and result |
| Descriptors.Task.SysOpen | libposix/sys/vnode.c:47-63 | an opened node is installed, or EMFILE |
| Descriptors.Task.SysPipe | libposix/sys/syscall.c:559-578 | result, new state and stored descriptors for every outcome; the second descriptor is chosen after the first, and neither is looked at |
| DescriptorRuns.Installed | libposix/sys/vnode.c:47-63 | a new handle is accounted for by its slot if there is room, and is otherwise left without an owner |
| DescriptorRuns.Replaced | libposix/vfs/vfs_unistd.c:176-201 | replacing one slot moves its old handle from the table to the pending ones and its new handle from there into the table |
| DescriptorRuns.DupKeeps | libposix/sys/unistd.c:443-458 | dup() and F_DUPFD of an open descriptor keep the invariant if and only if the table has room |
| DescriptorRuns.DupGives | libposix/sys/fcntl.c:136-150 | the new descriptor is the lowest free one from the offset on, a copy with the duplicated handle and the flag asked for |
| DescriptorRuns.DupFails | libposix/sys/fcntl.c:136-150 | each error, and that the table stays |
| DescriptorRuns.DuplicableKinds | libposix/vfs/vfs_fcntl.c:46-64 | which kinds of node can be duplicated |
| DescriptorRuns.DupLeaks | libposix/sys/unistd.c:443-458 | dup() in a full table breaks the invariant |
| DescriptorRuns.DupOfClosedAnswers | libposix/vfs/vfs_fcntl.c:35-67 | for a descriptor that is not open dup() and F_DUPFD answer EBADF if and only if a number is out of range, and EFTYPE otherwise |
| DescriptorRuns.Dup2Keeps | libposix/sys/unistd.c:459-476 | dup2() keeps the invariant if and only if the duplication succeeds and the replaced handle, if any, is gone |
| DescriptorRuns.Dup2Shares | libposix/sys/unistd.c:459-476 | a dup2() whose duplication fails leaves two slots with one handle |
| DescriptorRuns.Dup2ClosesOnce | libposix/vfs/vfs_unistd.c:187-201 | dup2() closes the replaced handle once and nothing else, and copies the node |
| DescriptorRuns.Dup2Fails | libposix/sys/unistd.c:459-476 | each error of dup2(), what it leaves in the slot, and dup2() of a descriptor onto itself |
| DescriptorRuns.CloseKeeps | libposix/sys/unistd.c:500-512 | close() keeps the invariant if and only if the slot was free or its device cleared it exactly if the handle is gone; it closes that handle or none |
| DescriptorRuns.CloseGives | libposix/sys/unistd.c:500-512 | result, slot and handle for every answer of the device |
| DescriptorRuns.FirstOpen | libposix/sys/vnode.c:47-63 | open() in an empty table gives descriptor 0 |
| DescriptorRuns.CloseAnswers | libposix/sys/unistd.c:500-512 | close() answers as it should, EBADF for what is not open, if and only if the number is out of range or open |
| DescriptorRuns.NotOpenAnswers | libposix/sys/unistd.c:443-512 | the answers of close(0) and dup(0) in an empty table |
| DescriptorRuns.PipeAnswers | libposix/sys/syscall.c:559-578 | pipe() answers 0 with an end that has no descriptor if and only if the pipe was made and there is no room for both |
| DescriptorRuns.PipeGives | libposix/sys/syscall.c:571-572 | with room, the first descriptor is the reading end and the second the writing end, the lowest two free ones in order |
| DescriptorRuns.PipeFails | libposix/sys/syscall.c:559-578 | when pipe() fails, what it answers, and that nothing changes |
| DescriptorRuns.CloseFromClears | libposix/sys/unistd.c:513-538 | closefrom(n) leaves a slot open from n on if and only if its device did not clear it, and touches none below |
| DescriptorRuns.CloseFromCloses | libposix/sys/unistd.c:513-538 | closefrom(n) closes the handles of the open slots from n on, each once, in order, if the devices do their part |
| DescriptorRuns.LowestIsGiven | libposix/sys/vnode.c:47-63 | each new descriptor is the lowest free one from the offset on, and no other slot changes (section 2.14 of POSIX.1-2017 XSH) |
| DescriptorRuns.StepKeeps | libposix/sys/unistd.c:443-538 | every call in which the devices do their part and there is room keeps the invariant |
| DescriptorRuns.RunKeeps | libposix/sys/unistd.c:443-538 | over every run: slots know their numbers, no handle is shared, each handle made is live or was closed once |
| DescriptorRuns.NothingLeaks | libposix/sys/unistd.c:443-538 | over every run from the empty table a handle is in a slot or closed, never both, and closefrom(0) closes all that is left, each once |
| Route.IfMsgSize | libposix/net/route.c:181-192 | the size of an adapter's messages |
| Route.IfaMsg | libposix/net/route.c:40-59 | header, address length, family and data at their places, the end position, and no other byte |
| Route.IfMsg | libposix/net/route.c:60-109 | all headers of an adapter laid end to end, its link address, the end position, and no other byte |
| Route.FillList | libposix/net/route.c:196-218 | the fill pass lays all messages end to end and advances by the size of the list |
| Route.SizeList | libposix/net/route.c:196-218 | the size pass computes the size of the list |
| Route.LaidKept | libposix/net/route.c:60-109 | messages once laid stay laid when bytes behind them change |
| Route.LaidJoin | libposix/net/route.c:60-109 | two streams of messages that meet are one |
| Route.LaidIsRead | libposix/net/route.c:40-109 | a reader that steps by message length meets every header in order and stops at the end |
| Route.WordIs | libposix/net/route.c:47-51 | where the fields of a header lie, the lower byte of a word first |
| Route.ListLengths | libposix/net/route.c:181-192 | the size of a list is the sum of its message lengths |
| Route.AdapterHeadersAre | libposix/net/route.c:60-109 | one message of the interface and then one for each address in order, with their lengths, versions, kinds and index |
| Route.ListHeadersJoin | libposix/net/route.c:196-218 | the messages of a list are those of its adapters in order |
| Route.ReaderMeetsAll | libposix/net/route.c:40-109 | the same from the start of the buffer, if and only if all lengths fit in 16 bits |
| Route.ReaderMeetsList | libposix/net/route.c:40-218 | for every list of adapters with socket addresses of Windows, a reader of the filled buffer meets every message and stops at the predicted size |
| Route.Enumerate | libposix/net/route.c:181-218 | the size pass predicts the bytes of the fill pass, and the reader finds every message of every adapter, for socket addresses of Windows always, and else if and only if the lengths fit |
| Signals.Task.SysSigaction | libposix/sys/signal.c:252-285 | whole new state, result and old action; SIGKILL and SIGSTOP are refused |
| Signals.SigactionInstalls | libposix/sys/signal.c:252-285 | the action that is given is installed, or the default or to ignore for the values 0 and 1; no other action and nothing else changes |
| Signals.SigactionRefuses | libposix/sys/signal.c:252-285 | for SIGKILL, SIGSTOP and what is no signal nothing changes |
| Signals.HandlerRuns | libposix/sys/signal.c:175-282 | a handler that was installed runs when its signal arrives |
| Signals.NullActionAsks | libposix/sys/signal.c:252-285 | sigaction() with a null action leaves the process as it was if and only if the signal cannot be set or has the default action |
| Signals.NullActionResets | libposix/sys/signal.c:252-285 | an ignored signal whose action is asked for has the default action afterwards |
| Signals.Task.SysSigprocmask | libposix/sys/signal.c:286-313 | whole new state, result and old mask |
| Signals.MaskBits | libposix/sys/signal.c:286-313 | what each way of sigprocmask() makes of the mask, signal by signal |
| Signals.Task.SigSuspend | libposix/sys/signal.c:144-155 | whole new state, and 0 for WM_QUIT, EINTR for any other message, EFAULT for no mask |
| Signals.Task.VfsSigsuspend | libposix/vfs/vfs_signal.c:198-216 | the mask is replaced while the process sleeps and then restored, with whatever the message does between |
| Signals.SuspensionMask | libposix/vfs/vfs_signal.c:198-216 | the handler sees the mask of the suspension, and the process has its own back afterwards |
| Signals.Task.SigprocDefault | libposix/sys/signal.c:156-174 | stops, ends or ignores, as the signal's default says |
| Signals.DefaultActions | libposix/sys/signal.c:156-174 | which signals stop, which are ignored, and that all others end the process with their number |
| Signals.Task.SigprocPosix | libposix/sys/signal.c:175-216 | what a delivery does for each kind of handler, and its result |
| Signals.SpecialHandlers | libposix/sys/signal.c:175-216 | an ignored signal leaves no trace, and SIG_ERR notes it with the error of the process |
| Signals.Suspend | libposix/vfs/vfs_signal.c:198-216 | the initial actions of SIGKILL and SIGSTOP survive a suspension |
| Signals.Deliver | libposix/sys/signal.c:175-216 | and a delivery, whatever its handler does |
| Signals.RunOps | libposix/sys/signal.c:252-318 | and every run of calls |
| Signals.RunsInTurn | libposix/sys/signal.c:252-318 | the calls of a run happen one after the other, until the process has ended |
| Signals.RunKeepsBlockable | libposix/sys/signal.c:286-318 | over every run, with any nesting of suspensions and handlers, the mask outside a suspension never contains SIGKILL or SIGSTOP |
| Signals.MaskIsIgnored | libposix/sys/signal.c:175-216 | runs from two masks deliver the same signals and end alike up to the mask |
| Signals.IsDelivered | libposix/sys/signal.c:175-216 | a signal that arrives is delivered whatever the mask, and before anything its handler does |
| Signals.BlockedIsLethal | libposix/sys/signal.c:156-216 | a lethal signal with the default action ends the process that blocks it |
| Signals.BlockedEnds | libposix/sys/signal.c:156-313 | a process that blocked signal 15 is ended by it |
| Signals.RunEndsRight | libposix/sys/signal.c:144-318 | over every run, a process has ended only by the signal delivered last, a lethal one with the default action, and SIGKILL was delivered exactly if the process ended by it |
| Signals.KillEnds | libposix/sys/signal.c:156-216 | every run with a step in which SIGKILL arrives ends the process |
| Signals.StopStops | libposix/sys/signal.c:156-174 | SIGSTOP always suspends the process, which has its own mask back if it goes on |

## Left out

- Device drivers and Windows calls (disk, pipe, pdo, char, winsock, process, registry, shell, drive): their answers are parameters.
- Symbolic links, mounts and ".exe" or ".lnk" rewriting behind PathGlob and PathClose: an existing prefix is taken as it is, and lookup ends before PathClose.
- The lookup cases of pathat_win for relative paths, directory descriptors and its flags: they only pick another root.
- Multibyte conversion: characters are converted as themselves.
- Growth and hand-over of heap blocks (win_realloc) in AclAddEntry, vfs_acl_create, vfs_acl_chown and argv_win: lists and lines are sequences that grow.
- Sizes in bytes of access lists and entries, the order of fields in them, and vfs_acl_init: the model has the entries.
- AclCreate.VfsAclCreate: entries of the directory are values; a copy made for another SID shares no storage with the list.
- Failures of GetSecurityDescriptorDacl and its relatives, and of getting an entry: a descriptor has no list, a null list, or a list.
- copy_thread and the thread control block: its layout depends on the C runtime.
- ForkStack.TaskCopy: does not model bytes within words; sizes and addresses are multiples of a word.
- The group id calls: they are the user id calls again, with another SID.
- Token handling behind vfs_seteuid: an outcome says whether the token was refused, or failed to be used after the identity was stored, or was switched.
- The 16-bit flags of poll entries are sets of named events; the bits that no set asks for are not named.
- Waiting, time-outs and wake-ups of select() and poll(): one answer of the drivers ends the wait.
- Device data of a descriptor other than its handle (mailslot handles, event handles, file types that change on duplication).
- Signal numbers of Windows control events, siginfo contents, tracing, exceptions, and kill(): a delivery names its signal.
- Signals.Task.SysSigaction: the value -1 as an action pointer is not modelled.
- Signals.MaskIsIgnored: sigpending() and the pending signal are not modelled; the code that would set it is commented out in the source.
- Routing messages other than the interface list, and counters and flags in interface headers: fixed fields of structures.
- Route.IfMsg: the bytes of a header behind its first eight are not modelled, and the link-level socket address is any content that fits; the layout of those structures is not part of this model.
- Route.IfaMsg: the bytes of a header behind its first eight are not modelled, for the same reason.
- Time conversion, process creation and reaping, terminals, sockets, sysctl and ioctl dispatch, and flat tables: plumbing, or other subsystems.
