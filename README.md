# WinReg USB Auditor — a verified model of its core

`WinReg_USB_Auditor.py` reads `HKLM\SYSTEM\CurrentControlSet\Enum\USBSTOR` to list
every USB storage device a Windows machine has seen, with the last-write time of
each device instance's registry key, and writes a report sorted newest first.
This project models, in Dafny, the three parts of the script that carry its
logic:

- `filetime.dfy`, module `FileTime`: the FILETIME decoding in
  `get_registry_key_timestamp`. Two 32-bit words are joined into a tick count of
  100 ns. The count is truncated to microseconds and added to 1601-01-01. Times
  are integers: microseconds since 1601-01-01 00:00. Python's `datetime` stops at
  9999-12-31 23:59:59.999999. That bound is computed from the proleptic Gregorian
  calendar (`YearStart(10000) - 1`), and a decoded time beyond it is the
  `OverflowError` the script would raise.
- `usbstor.dfy`, module `UsbStor`: `analyze_usb_storage`. The registry is a value.
  It holds the USBSTOR key, its device subkeys (level 1) and their instance
  subkeys (level 2). Each key records how opening it turns out, and what
  `EnumKey` raises after its last subkey. Each instance also records how reading
  `FriendlyName` turns out and what `RegQueryInfoKeyW` returns.
  `AnalyzeUsbStorage` is the script's two nested `while True` loops, with `i`,
  `j` and the growing `devices_found`. It is proved equal to `Analyze`, a
  loop-free definition. The lemmas then state what the walk returns.
- `report.dfy`, module `Report`: the in-place sort at line 175. The key is the
  last connection time, with `datetime.min` when there is none, and the order is
  descending. `SortByLastConnection` is an insertion sort on an array. It is
  proved newest first, a permutation, and stable: entries with equal keys keep
  their order. `NewestFirstUnique` shows that these three properties allow only
  one result, which is therefore what Python's stable sort returns.

The script's exception handling has these consequences, which the model
follows:

- An `OSError` when enumerating or opening a device key (level 1) ends the
  whole walk (lines 130-131); the devices after it are not walked. What was
  found before is kept.
- A root key that cannot be opened gives `[]`. `PermissionError` gives the same
  value as any other failure (lines 135-140), so a caller cannot tell "access
  denied" from "no devices".
- A `FriendlyName` that is missing gives the name `"Desconhecido (Driver
  Genérico)"` (line 108). Any other `OSError` while reading it drops the
  instance and ends its device's loop (line 127).
- A last-write time past year 9999 raises
  `OverflowError` at line 68. That exception is not an `OSError`, so it reaches
  line 138 and discards every artifact found so far.
- The words are joined with `+` (line 67). For words below 2^32 this equals the
  bitwise or.

## Model

| member | source | states |
|---|---|---|
| `FileTime.Ticks` | WinReg_USB_Auditor.py:67 | the joined value is below 2^64, its low word is `low` and its high word is `high` |
| `FileTime.SplitJoin` | WinReg_USB_Auditor.py:67 | splitting any value below 2^64 into two words and joining them gives it back |
| `FileTime.YearLength` | WinReg_USB_Auditor.py:68 | the closed form for days before a year gives each year 366 days when it is a Gregorian leap year and 365 otherwise |
| `FileTime.FileTimeToDatetime` | WinReg_USB_Auditor.py:66-68 | the result is in range exactly when the tick count is below 10 × (datetime.max + 1 µs); the microseconds m then satisfy 10m ≤ ticks < 10m + 10 (truncation) |
| `FileTime.DecodeSplit` | WinReg_USB_Auditor.py:67-68 | decoding the two words of any 64-bit v gives exactly v // 10 microseconds after 1601, or overflow when that is past datetime.max |
| `FileTime.DecodeEpoch` | WinReg_USB_Auditor.py:68 | FILETIME (0, 0) decodes to 1601-01-01 00:00 itself |
| `FileTime.DecodeUnixEpoch` | WinReg_USB_Auditor.py:66-68 | 116444736000000000 ticks decode to 1970-01-01 00:00, which is 11644473600 s after 1601 |
| `FileTime.DecodeMonotone` | WinReg_USB_Auditor.py:67-68 | a larger tick count never decodes to an earlier time, and overflows whenever a smaller one does |
| `FileTime.DecodeOverflowEdge` | WinReg_USB_Auditor.py:68 | datetime.max is 265046774399999999 µs after 1601; tick count 2650467743999999999 decodes to it, one more overflows, and so does the largest FILETIME |
| `FileTime.GetRegistryKeyTimestamp` | WinReg_USB_Auditor.py:65-70 | a nonzero return code gives None and never raises; a successful query gives the truncated time, at most datetime.max, or OverflowError exactly when the ticks pass datetime.max |
| `UsbStor.AnalyzeUsbStorage` | WinReg_USB_Auditor.py:76-140 | the nested index-driven loops return exactly `Analyze(registry)` on every registry |
| `UsbStor.AppendedInstance` | WinReg_USB_Auditor.py:105-124 | an instance yields an artifact iff it opens, its FriendlyName is stored or missing, and its time does not overflow; the artifact carries the device key name, the instance key name, the stored name or the generic name when it is missing, and the decoded time or None |
| `UsbStor.InstanceLoopOutcome` | WinReg_USB_Auditor.py:99-128 | the instance loop keeps the artifacts of the instances before the first that yields none; that instance ends the loop on an OSError and raises past the walk otherwise; the end of the enumeration decides the same way |
| `UsbStor.DeviceLoopOutcome` | WinReg_USB_Auditor.py:90-131 | the device loop keeps what the devices before the first incomplete one found; an OSError opening that device ends the walk and keeps it all, anything else keeps nothing |
| `UsbStor.InstanceLoopResult` | WinReg_USB_Auditor.py:99-128 | for every instance list, the inner loop ends as `InstanceLoopOutcome` says at the first instance that yields no artifact |
| `UsbStor.AnalyzeOutcome` | WinReg_USB_Auditor.py:85-140 | for every registry, the walk returns [] when the root fails to open; otherwise what the devices before the first incomplete one found, when that device failed to open with an OSError or the devices ran out with an OSError, and [] in every other case |
| `UsbStor.ArtifactProvenance` | WinReg_USB_Auditor.py:90-124 | every reported artifact is the one an instance yields, under an opened device key |
| `UsbStor.EveryInstanceReported` | WinReg_USB_Auditor.py:90-124 | when every key opens and reads, the result is one artifact per instance, devices outer and instances inner |
| `UsbStor.RootFailureReportsNothing` | WinReg_USB_Auditor.py:135-140 | a root key that cannot be opened gives [], and PermissionError gives the same value as any other failure |
| `UsbStor.EmptyUsbStor` | WinReg_USB_Auditor.py:90-133 | an empty USBSTOR key gives [] and is not an error |
| `UsbStor.InstanceFailureSkipsRestOfDevice` | WinReg_USB_Auditor.py:99-131 | an instance that fails to open loses itself and the instances after it; the next device is still walked |
| `UsbStor.DeviceFailureEndsWalk` | WinReg_USB_Auditor.py:92-133 | a device key that fails to open ends the walk, keeping the artifacts of the devices before it |
| `UsbStor.MissingFriendlyName` | WinReg_USB_Auditor.py:107-115 | a missing FriendlyName gives the generic name, and a failed time query gives None |
| `UsbStor.UnreadableFriendlyName` | WinReg_USB_Auditor.py:109-128 | an unreadable FriendlyName drops its instance and ends its device's loop, and the walk goes on |
| `UsbStor.OverflowDiscardsEverything` | WinReg_USB_Auditor.py:115-140 | a time past year 9999 discards the artifacts already found and gives [] |
| `Report.SortByLastConnection` | WinReg_USB_Auditor.py:175 | the array ends newest first (None as datetime.min), as a permutation of its old contents, with equal keys in their old order |
| `Report.NewestFirstUnique` | WinReg_USB_Auditor.py:175 | two sequences that are both newest first and agree on the order within every key are equal: the sort's result is determined |
| `Report.UndatedLast` | WinReg_USB_Auditor.py:175 | in a newest-first list, every entry with a time comes before every entry without one |
| `Report.ReportOrderExample` | WinReg_USB_Auditor.py:175 | times [T2, none, T1] with T2 > T1 are reported as [T2, T1, none] |

## Left out

- `is_admin` and `run_as_admin` (lines 26-42) are calls into shell32 and a UAC re-launch. They are foreign calls and process control.
- The ctypes `FILETIME` structure and the `RegQueryInfoKeyW` call (lines 49-63) are not modelled. Only their outcome is: a return code and the two words.
- `winreg.OpenKey`, `EnumKey` and `QueryValueEx` are not modelled as API calls. The registry is a value that records each call's outcome. The key paths (lines 94 and 103) are not built. A child is named by its key name.
- Handle closing by the `with` statements is a language guarantee. An exception raised while closing is not modelled.
- `QueryValueEx` can return non-string values (for example `REG_MULTI_SZ`). The model treats `FriendlyName` as a string.
- Exceptions outside `Exception` (`KeyboardInterrupt`, `SystemExit`) would escape `analyze_usb_storage`. They are not modelled.
- Calendar arithmetic is limited to the start of a year. Times are microseconds since 1601, and no month, day or `strftime` text is produced.
- The report file is not modelled: the Desktop path, the text written, `"N/A"`, `datetime.now()`, `COMPUTERNAME` and `os.startfile` (lines 146-197). The `if not devices` test skips the sort, and sorting an empty list changes nothing anyway. The main block (lines 203-220) and all `print` diagnostics are console I/O.
- `Report.SortByLastConnection` is an insertion sort, not Timsort. `Report.NewestFirstUnique` proves that any stable descending sort gives the same array.
