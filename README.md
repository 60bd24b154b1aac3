# Mesos socket handles and stout utilities, in Dafny

This project models a handful of pieces of Apache Mesos and its support libraries, and proves properties of the model.

- **The libprocess socket handle layer** (`process/socket.hpp`). A `SocketImpl` owns one descriptor. Any number of `Socket<AddressType>` handles share it through reference counting. The descriptor is closed when the last handle goes, unless it was released first. The string-level `recv(size)` overload is documented only, and is modelled as a specification over the peer's stream.
- **`uri::uriFromFilename`**: builds `file://` URIs, with back-slashes turned into slashes on Windows.
- **`os::copyfile` on POSIX**: three guards run before `cp` is spawned, and then the wait status is read.
- **`os::mkdir` on Windows**: the non-recursive mode creates one directory. The recursive mode creates every cumulative prefix of the path, stopping at the first error.
- **`net::mac` and `IPNetwork::fromLinkDevice` on Windows**: both search the adapter list for the adapter whose hardware address, written `XX-XX-…`, is the requested name.

Calls into the operating system and into code outside the model are treated as inputs to the model:
- The adapter list `GetAdaptersInfo` returns is an `AdapterQuery`.
- `os::spawn` is a function from the command line to the wait status.
- `IP::parse` and `IPNetwork::create` are function parameters.
- The existing directories are a set.
- The paths whose creation the system refuses are a map from path to Win32 error code.

Calls to `os::close` and `::shutdown` are recorded in logs on the impl instead of being performed.

The files are:

| file | module | models |
|---|---|---|
| `wrappers.dfy` | `Wrappers` | `Option`, `Result`, `Outcome` (`Try<Nothing>`) |
| `strings.dfy` | `Strings` | the stout string helpers the code calls |
| `socket.dfy` | `Sockets` | `SocketImpl`, `Socket<AddressType>`, `recv(size)` |
| `uri.dfy` | `Uri` | `uri::uriFromFilename` |
| `copyfile.dfy` | `PosixCopyFile` | `os::copyfile` (POSIX) |
| `mkdir.dfy` | `WindowsMkdir` | `os::mkdir` (Windows) |
| `adapters.dfy` | `Adapters` | the adapter records and the `XX-XX-…` address text both lookups build |
| `mac.dfy` | `WindowsMac` | `net::mac` (Windows) |
| `ip.dfy` | `WindowsIp` | `IPNetwork::fromLinkDevice` (Windows) |

Some source behaviour that the model makes visible:
- A recursive `os::mkdir` of a path that starts with a back-slash loses that back-slash. Tokenizing drops the empty first token, so `\a` creates `a\` relative to the working directory (`WindowsMkdir.LeadingSeparatorDropped`).
- In `net::mac`, an adapter whose address is all zeros counts as found but is skipped. When every matching adapter is like that, the result is none rather than an error (`WindowsMac.NotPresentWhenOnlyZeroMatches`).
- In `IPNetwork::fromLinkDevice`, the closing `return None()` cannot be reached, because every match returns inside the loop (`WindowsIp.ScanForNetwork` ends in `assert false` there).
- Handles compare by impl identity, not by descriptor number. Once the last owner of an impl has closed its descriptor and a new impl is built from the reused number, a handle to the old impl and a handle to the new one are not equal (`Sockets.ReusedDescriptorNotEqual`).

## Model

| member | source | states |
|---|---|---|
| Sockets.SocketImpl.constructor | 3rdparty/libprocess/include/process/socket.hpp:199 | Requires a non-negative descriptor, since `CHECK(s >= 0)` aborts otherwise. The new impl holds that descriptor with one owner, has closed and shut down nothing, and satisfies the ownership invariant `Valid`. |
| Sockets.SocketImpl.Get | 3rdparty/libprocess/include/process/socket.hpp:111-114 | `get()` returns the held value. That is the descriptor the impl was built with, or -1 once released, and never any other value. |
| Sockets.SocketImpl.Release | 3rdparty/libprocess/include/process/socket.hpp:207-212 | Returns the previously held descriptor and leaves -1 behind. A second release therefore returns -1. Nothing is closed, and the invariant is kept. |
| Sockets.SocketImpl.Shutdown | 3rdparty/libprocess/include/process/socket.hpp:187-194 | Passes the held descriptor and `SHUT_RD` to `::shutdown` (logged as a pair). A negative return becomes the errno error, and any other return is success. A released impl (descriptor -1) always fails, since the system refuses -1. The descriptor, the owners and the close log are unchanged. |
| Sockets.SocketImpl.Shared | 3rdparty/libprocess/include/process/socket.hpp:217-224 | `shared(this)` returns the same impl with one more owner, and nothing else changes. |
| Sockets.SocketImpl.Unref | 3rdparty/libprocess/include/process/socket.hpp:100-106 | Dropping an owner decrements the count. When it reaches zero, the destructor closes the held descriptor, and only if it is not the released sentinel. The invariant (at most one close, of its own descriptor, never after release) is kept. |
| Sockets.ClosedAtMostOnce | 3rdparty/libprocess/include/process/socket.hpp:100-106 | In every valid state the impl has closed at most its own descriptor, and only once. It has closed nothing while owners remain or after a release. |
| Sockets.Create | 3rdparty/libprocess/include/process/socket.hpp:250-259 | `Socket::create` fails exactly when `SocketImpl::create` fails, with the same message. Otherwise it returns a handle to that impl. |
| Sockets.Accept | 3rdparty/libprocess/include/process/socket.hpp:321-328 | The accepted impl, or the failure, is re-wrapped in a handle of the same address type. The listening handle is not modified. |
| Sockets.Equals | 3rdparty/libprocess/include/process/socket.hpp:286-289 | Two handles are equal exactly when they are the same handle value, that is, when they share one impl. |
| Sockets.Get | 3rdparty/libprocess/include/process/socket.hpp:291-294 | `operator int` and `get()` (lines 306-309) forward the impl's descriptor unchanged. A non-negative answer is the impl's own descriptor. |
| Sockets.KindOf | 3rdparty/libprocess/include/process/socket.hpp:281-284 | `kind()` is the shared impl's backend, fixed when the impl was built. |
| Sockets.Widen | 3rdparty/libprocess/include/process/socket.hpp:367-370 | The family-erased handle shares the same impl, so it has the same `get()` and the same kind. The impl gains exactly one owner; it closes and shuts down nothing, and keeps its descriptor. |
| Sockets.ReusedDescriptorNotEqual | 3rdparty/libprocess/include/process/socket.hpp:286-289 | An impl whose last owner is gone has closed descriptor `fd`; a new impl built from the reused `fd` has one owner and `get() == fd`. A handle to each is not equal to the other, although both impls were built from `fd`. |
| Sockets.ReadExactly | 3rdparty/libprocess/include/process/socket.hpp:152-163 | Reading N bytes succeeds exactly when the stream holds at least N bytes. The data is then the first N bytes of the stream, and the rest of the stream is left for later reads without losing or reordering a byte. |
| Sockets.Recv | 3rdparty/libprocess/include/process/socket.hpp:152-163 | Per the doc-comment: size 0 gives "" and reads nothing; a negative size gives everything until end-of-stream; a positive N gives exactly N bytes, or fails at end-of-stream; no size gives the next available chunk. In every case, data plus what is left equals the stream. |
| Sockets.ConsecutiveReads | 3rdparty/libprocess/include/process/socket.hpp:152-163 | Reading m bytes and then n more succeeds exactly when reading m+n at once succeeds, and it yields the same bytes. |
| Sockets.ReadToEndExample | 3rdparty/libprocess/include/process/socket.hpp:152-163 | A peer that writes "abc" and closes is read to the end as "abc". |
| Sockets.ShortStreamExample | 3rdparty/libprocess/include/process/socket.hpp:152-163 | Asking for 5 bytes from a peer that writes only "ab" fails with end-of-stream. |
| Strings.ReplaceChar | 3rdparty/stout/include/stout/uri.hpp:49 | `strings::replace` with one-character arguments keeps the length and changes exactly the occurrences of `from`. |
| Strings.RemovePrefix | 3rdparty/stout/include/stout/os/windows/mkdir.hpp:44-47 | `strings::remove(s, prefix, PREFIX)`: when `s` starts with the prefix, the prefix followed by the result is `s`; otherwise `s` is returned unchanged. |
| Strings.TokenizeFrom | 3rdparty/stout/include/stout/os/windows/mkdir.hpp:44-48 | `strings::tokenize` yields non-empty tokens free of the separator, which together hold every other character of the input, in order. |
| Strings.TokenizeEmpty | 3rdparty/stout/include/stout/os/windows/mkdir.hpp:44-48 | The empty string has no tokens. |
| Strings.TokenizeWithoutSeparator | 3rdparty/stout/include/stout/os/windows/mkdir.hpp:44-48 | A non-empty string without the separator is exactly one token, itself. |
| Strings.TokenizeSplits | 3rdparty/stout/include/stout/os/windows/mkdir.hpp:44-48 | Tokens break at every separator: the tokens of `a`, a separator, `b` are the tokens of `a` followed by those of `b`. With the two rows above, this fixes the tokens of every string. |
| Strings.TokenizeJoin | 3rdparty/stout/include/stout/os/windows/mkdir.hpp:44-48 | Non-empty, separator-free components joined by the separator tokenize back to exactly those components. |
| Strings.HexDigit | 3rdparty/stout/include/stout/windows/mac.hpp:66 | A digit of `%.2X` is an upper-case hexadecimal character. |
| Strings.HexValue | 3rdparty/stout/include/stout/windows/mac.hpp:76 | The value of a hexadecimal digit read back is below 16. |
| Strings.FormatHex2 | 3rdparty/stout/include/stout/windows/mac.hpp:66 | `strings::format("%.2X", b)` is two characters long. |
| Strings.FormatHex2RoundTrip | 3rdparty/stout/include/stout/windows/mac.hpp:66 | Reading the two digits back gives the byte. |
| Strings.FormatHex2Injective | 3rdparty/stout/include/stout/windows/mac.hpp:66 | Different bytes are formatted differently. |
| Uri.UriFromFilename | 3rdparty/stout/include/stout/uri.hpp:33-53 | The result is empty iff the path is empty. Otherwise it is `file://` followed by \|path\| characters. On POSIX those characters are the path itself. On Windows they are the path with every back-slash made a slash, so no back-slash remains. |
| Uri.PosixRoundTrip | 3rdparty/stout/include/stout/uri.hpp:51 | On POSIX, stripping the 7-character prefix gives the path back. |
| Uri.WindowsRoundTrip | 3rdparty/stout/include/stout/uri.hpp:49 | On Windows, stripping the prefix gives the path with back-slashes replaced. |
| Uri.ReplaceCharIdempotent | 3rdparty/stout/include/stout/uri.hpp:49 | Replacing back-slashes a second time changes nothing. |
| Uri.PlatformsAgreeWithoutBackslash | 3rdparty/stout/include/stout/uri.hpp:48-52 | A path without back-slashes gives the same URI on both platforms. |
| Uri.PosixUnitTest | 3rdparty/stout/tests/uri_tests.cpp:24-26 | "" maps to "", and "/absolute/path/on/linux" maps to "file:///absolute/path/on/linux". |
| Uri.WindowsUnitTest | 3rdparty/stout/tests/uri_tests.cpp:28-31 | On Windows, "" maps to "", and "c:\somedir\somefile" maps to "file://c:/somedir/somefile". |
| PosixCopyFile.CopyFile | 3rdparty/stout/include/stout/os/posix/copyfile.hpp:32-74 | An existing directory or a trailing slash on either side is refused as a directory. Otherwise a relative path on either side is refused. Once the guards pass, a spawn status of -1 is a spawn error. Success holds iff the guards pass and the child exited normally with status 0. Every other status is an exit error carrying the status. |
| PosixCopyFile.WIfExited | 3rdparty/stout/include/stout/os/posix/copyfile.hpp:67 | `WIFEXITED` is false for the -1 a failed spawn reports. |
| PosixCopyFile.WExitStatus | 3rdparty/stout/include/stout/os/posix/copyfile.hpp:67 | `WEXITSTATUS` is a value in 0..255, and for a status in 0..0xFFFF it is the high byte. |
| PosixCopyFile.ExitStatusIsZero | 3rdparty/stout/include/stout/os/posix/copyfile.hpp:67 | `WIFEXITED(s) && WEXITSTATUS(s) == 0` holds iff the low 16 bits of s are 0 or 0x80 (a core-dump flag with no signal). It fails for -1. |
| PosixCopyFile.GuardFailureSkipsSpawn | 3rdparty/stout/include/stout/os/posix/copyfile.hpp:37-60 | When any guard fails, the result is an error that does not depend on the spawn at all, so `cp` is never consulted. |
| PosixCopyFile.OutcomeDependsOnlyOnCopyCommand | 3rdparty/stout/include/stout/os/posix/copyfile.hpp:60 | The outcome depends on the spawn only through the status of `cp source destination`. |
| PosixCopyFile.UnitTestCases | 3rdparty/stout/tests/os/copyfile_tests.cpp:63-110 | A successful copy passes. A destination that is a directory, one that ends in a slash, and a relative destination all fail. |
| WindowsMkdir.CumulativePaths | 3rdparty/stout/include/stout/os/windows/mkdir.hpp:50-54 | One path per token. The first is the token plus a back-slash, and each later one is the previous path plus the next token plus a back-slash. |
| WindowsMkdir.FileSystem.constructor | 3rdparty/stout/include/stout/os/windows/mkdir.hpp:33 | A file system with the given directories and refusals, and no creation attempted yet. |
| WindowsMkdir.FileSystem.CreateDirectory | 3rdparty/stout/include/stout/os/windows/mkdir.hpp:39-42 | `CreateDirectoryW` logs one attempt. It fails with 183 on an existing path, or with the system's code on a refused one. Otherwise it creates the path. |
| WindowsMkdir.Mkdir | 3rdparty/stout/include/stout/os/windows/mkdir.hpp:33-62 | The non-recursive mode leaves the file system as the one-path creation `CreateOne` does. The recursive mode leaves it as `CreateAll` over the cumulative prefixes of the path, with the long-path prefix stripped and the path tokenized at back-slashes. The loop is proved against that specification. |
| WindowsMkdir.ExistingPathIsNoOp | 3rdparty/stout/include/stout/os/windows/mkdir.hpp:35-38 | An existing path yields success with the disk unchanged and no attempt made. |
| WindowsMkdir.MissingPathOneAttempt | 3rdparty/stout/include/stout/os/windows/mkdir.hpp:39-42 | A missing path is attempted exactly once. The system's refusal is the error, and success iff the path exists afterwards. |
| WindowsMkdir.SuccessCreatesEveryPath | 3rdparty/stout/include/stout/os/windows/mkdir.hpp:52-61 | After a successful recursive run, the directories are exactly the old ones plus every prefix. |
| WindowsMkdir.AllExistingIsNoOp | 3rdparty/stout/include/stout/os/windows/mkdir.hpp:36-38 | When every prefix exists, the recursive run succeeds and changes nothing. |
| WindowsMkdir.RerunAfterSuccessIsNoOp | 3rdparty/stout/include/stout/os/windows/mkdir.hpp:52-61 | Running a successful recursive mkdir again succeeds without a single attempt. |
| WindowsMkdir.FailedAt | 3rdparty/stout/include/stout/os/windows/mkdir.hpp:54-57 | The position of the prefix whose creation failed is within the list. |
| WindowsMkdir.FailureIsFirstRefusal | 3rdparty/stout/include/stout/os/windows/mkdir.hpp:54-57 | The failing prefix did not exist and was refused, and its code is the error returned. Every earlier prefix existed when the loop reached it or was not refused, so the failing prefix is the first refusal. Exactly the earlier prefixes exist afterwards in addition to the old directories. |
| WindowsMkdir.EarlierPrefixesPassed | 3rdparty/stout/include/stout/os/windows/mkdir.hpp:52-57 | Every prefix before the failing one existed by the time the loop reached it, or was not refused. |
| WindowsMkdir.FailureAttemptsNothingLater | 3rdparty/stout/include/stout/os/windows/mkdir.hpp:54-57 | The last attempt is the failing prefix, and every attempt made is a prefix up to and including it. No later prefix is attempted. |
| WindowsMkdir.LongPathPrefixIgnored | 3rdparty/stout/include/stout/os/windows/mkdir.hpp:44-48 | A leading `\\?\` does not change the prefixes created. |
| WindowsMkdir.TokenizeDrivePath | 3rdparty/stout/include/stout/os/windows/mkdir.hpp:44-48 | `C:\t1\t2` tokenizes to `C:`, `t1`, `t2`. |
| WindowsMkdir.DrivePathPrefixes | 3rdparty/stout/include/stout/os/windows/mkdir.hpp:50-54 | Those tokens give the prefixes `C:\`, `C:\t1\`, `C:\t1\t2\`. |
| WindowsMkdir.LongDrivePathPrefixes | 3rdparty/stout/include/stout/os/windows/mkdir.hpp:44-54 | `\\?\C:\t1\t2` is created as `C:\`, `C:\t1\`, `C:\t1\t2\`, in that order. |
| WindowsMkdir.LeadingSeparatorDropped | 3rdparty/stout/include/stout/os/windows/mkdir.hpp:44-54 | `\a` is created as the single prefix `a\`. |
| Adapters.MacString | 3rdparty/stout/include/stout/windows/mac.hpp:64-70 | The address text is empty exactly when the address has no bytes; `MacStringShape` states the rest of its shape. |
| Adapters.MacStringShape | 3rdparty/stout/include/stout/windows/mac.hpp:64-70 | The address text has length 3n-1 for n > 0 bytes (empty for none). Byte k is the two upper-case digits at 3k, followed by a dash except after the last byte. |
| Adapters.FormatMac | 3rdparty/stout/include/stout/windows/ip.hpp:65-71 | The append loop (also mac.hpp:64-70) builds exactly the address text. |
| Adapters.MacStringInjective | 3rdparty/stout/include/stout/windows/mac.hpp:72 | Equal address texts mean equal address bytes, so comparing the text with the name compares addresses. |
| Adapters.FirstMatch | 3rdparty/stout/include/stout/windows/mac.hpp:62-72 | The answer is the least position whose address text is the name, and none iff no adapter matches. |
| Adapters.MatchesShareAddress | 3rdparty/stout/include/stout/windows/mac.hpp:72 | All adapters matching one name have the same address bytes. |
| WindowsMac.ParseMac | 3rdparty/stout/include/stout/windows/mac.hpp:76 | A successful parse of the colon form consumed 17 characters and yields 6 bytes. |
| WindowsMac.ParseMacRoundTrip | 3rdparty/stout/include/stout/windows/mac.hpp:75-76 | The colon form of an address text parses iff the address has 6 bytes, and then it parses back to that address. |
| WindowsMac.ParseMatchingName | 3rdparty/stout/include/stout/windows/mac.hpp:72-76 | When an adapter matches and the name parses, the parsed MAC is that adapter's address. |
| WindowsMac.MatchAt | 3rdparty/stout/include/stout/windows/mac.hpp:62-73 | A match at k means the first match is at or before k, with the same address. |
| WindowsMac.Mac | 3rdparty/stout/include/stout/windows/mac.hpp:41-93 | Query failures give their errors before any search. Otherwise the result is `ExpectedMac`. |
| WindowsMac.ScanAdapters | 3rdparty/stout/include/stout/windows/mac.hpp:62-92 | The loop, with its `found` flag, `continue` and early return, computes `ExpectedMac`. That is: no match gives "Cannot find the link device"; a first match that is all zeros gives none; otherwise the result is that address. |
| WindowsMac.NotPresentWhenOnlyZeroMatches | 3rdparty/stout/include/stout/windows/mac.hpp:72-92 | None is answered iff some adapter matches and every matching address is all zeros. |
| WindowsMac.FoundIsMatchingNonZero | 3rdparty/stout/include/stout/windows/mac.hpp:72-84 | A found MAC is not all zeros, is the address of a matching adapter, and is what the name parses to. |
| WindowsIp.DefaultPrefix | 3rdparty/stout/include/stout/windows/ip.hpp:93-96 | With no mask, the prefix is 32 for AF_INET and 64 for AF_INET6. |
| WindowsIp.FromTry | 3rdparty/stout/include/stout/windows/ip.hpp:85-90 | A created network is returned. A creation error is returned with its message. |
| WindowsIp.FromLinkDevice | 3rdparty/stout/include/stout/windows/ip.hpp:36-111 | A family other than AF_INET (2) or AF_INET6 (23) is an error before any query. Query failures come next, and then no match gives "Cannot find the link device". The first match decides: `create(address, mask)` when a mask is reported, `create(address, 32 or 64)` otherwise, with errors passed on. The result is never none. |
| WindowsIp.ScanForNetwork | 3rdparty/stout/include/stout/windows/ip.hpp:63-110 | The loop returns at the first match, and `found` is never true after it, so the final `return None()` is dead. |
| WindowsIp.LaterAdaptersIgnored | 3rdparty/stout/include/stout/windows/ip.hpp:73-102 | Adapters after the first match do not change which adapter decides the answer. |

## Left out

- Asynchronous socket operations (`listen`, `connect`, `accept`'s wait, the buffer `recv`/`send`/`sendfile`, `send(string)`): their bodies are backend code returning futures and are not part of this model. `Accept` takes the accepted impl, or the failure, as its input.
- `address()`, `peer()`, `bind()`: these forward to OS queries whose implementations are not part of this model.
- Concurrency: the atomic reference count and concurrent use of one impl. The count is modelled sequentially as the field `refs`.
- `SocketImpl::create`, `DEFAULT_KIND()` and the backend subclasses are not part of this model. `Create` takes the factory's result as input.
- Sockets.Recv: the body of `recv(size)` is not part of this model; it follows the doc comment at socket.hpp:155-163. That comment leaves two cases open, and the model decides them: any negative size, not only -1, reads to the end of the stream, and a positive N fails when the stream ends before N bytes have arrived.
- Sockets.SocketImpl.Unref: `CHECK_SOME(os::close(s))` aborts when closing fails. The model assumes close succeeds and only logs it.
- The handle-level `shutdown()`, copy and destruction forward to `SocketImpl.Shutdown`, `SocketImpl.Shared` and `SocketImpl.Unref`. They have no members of their own; `kind()` is `Sockets.KindOf`.
- `::internal::windows::longpath` (the wide-character conversion before `CreateDirectoryW`) is not part of this model. The path is passed as is.
- The text of error messages (`ErrnoError`, `WindowsError`, the "may not be a directory" wording). Errors are datatype values carrying the paths, the status or the code.
- `stat::isdir` and `os::exists` are membership in one set of directories. Files that are not directories are not distinguished.
- WindowsMkdir.FileSystem: directories are compared as strings, so `C:\t1` and `C:\t1\` are different members of `dirs`, although Windows treats them as one directory. The recursive mode always creates names ending in a back-slash.
- `path::absolute` on POSIX is modelled as a leading `/`.
- WindowsMac.ParseMac: `MAC::parse` is not part of this model. It is given only the meaning `net::mac` relies on: six colon-separated pairs of hexadecimal digits. `stringify(mac) == "00:00:00:00:00:00"` is modelled as every byte being zero.
- WindowsMac.Mac: the requires says the name parses once an adapter matches. The source's `.get()` aborts otherwise, for example on a hardware address that is not 6 bytes long.
- WindowsIp.FromLinkDevice: `IP::parse` and `IPNetwork::create` are parameters with no contract. The requires says the first matching adapter's address and mask parse, because the source's `.get()` aborts otherwise.
- `strcmp` compares up to the first NUL character, and the model compares whole strings. The two agree for names without an embedded NUL.
- `GetAdaptersInfo` is modelled by its outcome: the size query not answering `ERROR_BUFFER_OVERFLOW`, the fetch failing with a code, or the adapter list. Only the first entry of each adapter's IP address list is modelled, as the source reads only that.
