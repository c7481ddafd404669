# MAC address changer — a Dafny model

A model of the decision logic of `Source/MAC_address_changer.py`. This
script changes the hardware address of a Linux network interface. It covers
four pieces of the script:

- **the `--mac` check of `get_args`.** The regular expression
  `[a-fA-F0-9]{2}([-:]?)[a-fA-F0-9]{2}(\1[a-fA-F0-9]{2}){4}$` is applied with
  `re.match`. An empty argument is kept, a valid one is kept as typed, and
  only a non-empty invalid one is replaced by a generated address.
- **`generate_random_mac`.** The consent prompt loop runs first. On `y`, the
  script builds an address from one of four vendor prefixes and three random
  octets.
- **`do_root_permission`.** This is the privilege gate. It returns a *falsy*
  value when the run may proceed.
- **`change_mac` and `main`.** `change_mac` is a five-command `ifconfig`
  sequence. `main` calls `get_args`, then the gate, then `change_mac`.

Everything the script asks of the outside world is an input of the model:

- the answers typed at the prompt, as a sequence of strings;
- the values `randrange` draws (`RandomMac.Draws`);
- the effective user id and the exit statuses of `sudo -n true` and `sudo -v`
  (`Privilege.Env`);
- the exit statuses of the two `ifconfig` queries
  (`Reconfigure.QueryStatuses`).

Each outcome is a value:

- the `sys.exit` after `n`;
- the end of input during the prompt;
- a refused gate;
- a query that raised.

Modules, one per component, leaf first:

| module | file | models |
|---|---|---|
| `HexText` | `hex_text.dfy` | hex digits, `str.lower`, `sep.join`, `'%02x' % n` and its inverse |
| `MacFormat` | `mac_format.dfy` | the line-43 pattern: a hand-coded predicate, its structural form, a matcher method |
| `RandomMac` | `random_mac.dfy` | the vendor prefix pool, the address builder, the consent loop |
| `Privilege` | `privilege.dfy` | `do_root_permission` |
| `Reconfigure` | `reconfigure.dfy` | `change_mac` as a state machine that emits a command trace |
| `MacChanger` | `mac_changer.dfy` | `get_args` lines 43–49 and `main` |

The model follows the code as written; in particular:

- An empty `--mac` is passed on unchanged to `ifconfig ... hw ether`. It does
  not trigger generation.
- A valid `--mac` is passed on exactly as typed. It is not normalised to
  lower case or to colons.
- Twelve hex digits with no separator are accepted.
- Because `$` also matches just before a final newline, one trailing `\n` is
  accepted too.
- Random octets range over 0–254, because `randrange(0, 255)` excludes 255.
- The gate does run the possibly interactive `sudo -v`, and proceeds when it
  exits 0.
- `change_mac` checks no step's exit status except the two `check_output`
  queries. A failing query raises, and that ends the run.

## Model

| member | source | states |
|---|---|---|
| `MacFormat.MacShapeIsJoined` | Source/MAC_address_changer.py:43 | The hand-coded shape holds iff the string is six two-hex-digit groups joined by one separator from {"", ":", "-"}, the same one between every pair. Both directions are proved. |
| `MacFormat.MatchesMacPatternIsLanguage` | Source/MAC_address_changer.py:43 | The matcher accepts exactly the pattern's language. That language is the structural form, optionally followed by the one newline `$` allows. |
| `MacFormat.MatchesMacPattern` | Source/MAC_address_changer.py:43 | An accepted string is 12 or 17 characters long, plus at most one final newline. It starts with a hex digit. Every other character is a hex digit or a separator, apart from that newline. |
| `MacFormat.MatchMac` | Source/MAC_address_changer.py:43 | The loop-based matcher returns true iff `re.match` finds a match (one that may stop before a single final newline), and iff the argument is in the structural language. |
| `MacFormat.JoinedMacAccepted` | Source/MAC_address_changer.py:43 | Any six hex pairs joined by an allowed separator are accepted, with or without one trailing newline. |
| `MacFormat.WrongGroupCountRejected` | Source/MAC_address_changer.py:43 | A join of any number of hex pairs other than six is rejected (none, five or seven groups, say), with or without one trailing newline. |
| `MacFormat.MixedSeparatorsRejected` | Source/MAC_address_changer.py:43 | A 17-character string with two different characters at separator positions is rejected, because of the backreference `\1`. So is that string followed by one newline. |
| `MacFormat.NonHexRejected` | Source/MAC_address_changer.py:43 | A character that is neither a hex digit nor a separator rejects the string. The one exception is a newline in last place. |
| `MacFormat.MatchIgnoresCase` | Source/MAC_address_changer.py:43 | The verdict is the same for a string and its lower-cased form. |
| `MacFormat.PatternExamples` | Source/MAC_address_changer.py:43 | `aa:bb-cc:dd:ee:ff`, five groups, seven groups, `not-a-mac` and the empty string are rejected. Colon, dash, no-separator and newline-terminated addresses are accepted. |
| `MacChanger.ClassifyMacArgument` | Source/MAC_address_changer.py:44-48 | The empty argument is never classed as invalid. A non-empty argument is valid iff it is six hex pairs joined by one allowed separator, optionally followed by one newline. Otherwise it is invalid. |
| `MacChanger.GetArgs` | Source/MAC_address_changer.py:36-49 | An empty or valid argument comes back unchanged, logged at debug level. An invalid one can only come back as the generated address, logged as a warning. Every result is empty or valid. |
| `MacChanger.GetArgsPrompt` | Source/MAC_address_changer.py:44-46 | Only an invalid argument can end `get_args` without arguments. For one, arguments are returned iff the first decisive answer is `y`, and the run aborts iff it is `n`. |
| `HexText.LowerChar` | Source/MAC_address_changer.py:82-86 | Lower-casing one character never leaves an upper-case letter, maps `A`–`Z` into `a`–`z`, and leaves every other character unchanged. |
| `HexText.Lower` | Source/MAC_address_changer.py:82-86 | `str.lower()` keeps the length, leaves no upper-case letter, and keeps every character outside `A`–`Z` in place. |
| `HexText.LowerHexPair` | Source/MAC_address_changer.py:102 | `.lower()` turns any hex pair into a lower-case hex pair. |
| `HexText.JoinLength` | Source/MAC_address_changer.py:102 | `sep.join(parts)` is as long as the parts together plus one separator per gap. |
| `HexText.JoinEnds` | Source/MAC_address_changer.py:102 | `sep.join(parts)` starts with the first part and ends with the last. |
| `HexText.JoinPairsSeparated` | Source/MAC_address_changer.py:102 | `':'.join` of two-character groups puts the separator at every index ≡ 2 (mod 3) and the group characters in order everywhere else. |
| `HexText.FormatOctet` | Source/MAC_address_changer.py:97-99 | `'%02x'` of an octet is two lower-case hex digits that read back as the same octet. |
| `HexText.OctetValueRoundTrip` | Source/MAC_address_changer.py:96-100 | Reading a hex pair and formatting it with `'%02x'` gives back the pair, lower-cased. |
| `HexText.FormatOctetIsFF` | Source/MAC_address_changer.py:97-99 | `'%02x'` writes `ff` exactly for 255. |
| `RandomMac.PoolEntry` | Source/MAC_address_changer.py:90-95 | Each pool entry is three hex pairs. Colon-joined and lower-cased, it is one of `cc:46:d6`, `3c:5a:b4`, `3c:d9:28`, `24:46:cb`. |
| `RandomMac.PrefixesDistinct` | Source/MAC_address_changer.py:90-95 | The four pool entries give four different prefixes. |
| `RandomMac.GeneratedGroups` | Source/MAC_address_changer.py:96-102 | `':'.join(rnd_industrial_oui + ouirnd).lower()` is 17 characters with `:` at every third position. Its group k is part k of the joined list, lower-cased. |
| `RandomMac.GeneratedLayout` | Source/MAC_address_changer.py:96-102 | The first eight characters of that address are the chosen pool entry. Groups 3 to 5 are the three `'%02x'` octets, in draw order. |
| `RandomMac.GenerateMac` | Source/MAC_address_changer.py:90-102 | For all draws in range, the address is six lower-case hex pairs separated by `:` and passes the line-43 pattern. It starts with the chosen pool entry, which no other entry shares. Groups 3 to 5 read back as the three draws, so none is `ff`. |
| `RandomMac.AskConsent` | Source/MAC_address_changer.py:81-87 | The loop stops at the first answer that lower-cases to `y` or `n`. Every earlier answer is skipped. It runs out of input iff no answer is decisive. |
| `RandomMac.DecisiveAnswers` | Source/MAC_address_changer.py:82-86 | After lower-casing, an answer is `y` iff it is `y` or `Y`, and `n` iff it is `n` or `N`. |
| `RandomMac.ConsentExamples` | Source/MAC_address_changer.py:82-86 | `yes`, `no`, `maybe` and the empty answer are re-asked. `Y` and `N` decide. |
| `RandomMac.GenerateRandomMac` | Source/MAC_address_changer.py:79-108 | An address is generated iff the first decisive answer is `y`, and the run aborts iff it is `n`. Input runs out iff no answer is decisive. A generated address is the one built from the draws and passes validation. |
| `Privilege.DoRootPermission` | Source/MAC_address_changer.py:52-61 | The result is falsy iff euid is 0, or `sudo -n true` exits 0, or `sudo -v` exits 0. With euid 0 nothing is probed. `sudo -v` runs only after `sudo -n true` fails. |
| `Reconfigure.RunFromFollowsPlan` | Source/MAC_address_changer.py:68-76 | Once past the first query, the state machine issues the rest of the planned commands in order. It raises iff the last query fails. |
| `Reconfigure.CommandAt` | Source/MAC_address_changer.py:66-75 | Every step's command targets the interface. Only the step between link down and link up sets an address, and it sets the given one. |
| `Reconfigure.RunFrom` | Source/MAC_address_changer.py:64-76 | From any step, at most the remaining steps issue a command, the first being that step's own. Every command targets the interface, any address set is the given one, and a run that raised ended on a query. |
| `Reconfigure.ChangeMac` | Source/MAC_address_changer.py:64-76 | If the first query succeeds, exactly the five commands run in order: query, down, `hw ether <mac>`, up, query. Otherwise only the first query runs. It raises iff a query fails. |
| `MacChanger.ResolvedMac` | Source/MAC_address_changer.py:44-49 | The address handed on is the argument itself when it is empty or valid. In every case it is empty or passes the line-43 pattern. |
| `MacChanger.Main` | Source/MAC_address_changer.py:110-121 | A command is issued only with permission, and the first one queries the given interface. Probes run only after `get_args` returned. A completed run issued the five planned commands with the resolved address. A refused run issued nothing. The outcome is Declined iff `get_args` aborted on `n`, and InputEnded iff input ran out at the prompt. It is Attempted iff a permitted run's two queries both exit 0, and QueryRaised iff a permitted run has a query that fails. |
| `MacChanger.NoCommandWithoutPermission` | Source/MAC_address_changer.py:115-121 | An interface command is issued iff `get_args` completed and the gate grants permission. Without permission the outcome is NotAuthorized and nothing is issued. |
| `MacChanger.PromptPrecedesGate` | Source/MAC_address_changer.py:111-115 | An aborted or input-starved prompt runs no privilege probe and issues no command. Otherwise the gate's probes are run. |
| `MacChanger.MainAppliesResolvedMac` | Source/MAC_address_changer.py:113-117 | With permission and a successful first query, the planned five commands run against the given interface. They carry the resolved address: the argument when empty or valid, the generated one when invalid. |
| `MacChanger.ValidArgumentScenario` | Source/MAC_address_changer.py:113-117 | As root, `AA:BB:CC:DD:EE:FF` is applied to `eth0` exactly as typed. |
| `MacChanger.EmptyArgumentScenario` | Source/MAC_address_changer.py:44-49 | An empty argument causes no prompt. `hw ether` gets the empty address, after only the `sudo -n` probe. |
| `MacChanger.NotAMacPrompt` | Source/MAC_address_changer.py:43-46 | For `not-a-mac`, a `y` returns the generated address with a warning, and an `n` aborts `get_args`. |
| `MacChanger.InvalidArgumentScenario` | Source/MAC_address_changer.py:44-46 | `not-a-mac` is logged as a warning. After `y`, the address applied starts with a known vendor prefix. After `n`, nothing runs. |
| `MacChanger.NoPermissionScenario` | Source/MAC_address_changer.py:115-121 | Not root and both `sudo` probes failing: both probes run, the outcome is NotAuthorized, and no command is issued. |

## Left out

- Shell execution, `os.geteuid`, `input()` and `sys.exit` are foreign calls. Their results are inputs, and termination is an outcome value.
- Randomness: the values `randrange` returns are bounded parameters. Uniformity of the distribution is not stated.
- Logging configuration (`get_logger`, `user_log_filter`, rotation, compression) and all message text are left out. Only the severity `get_args` chooses (debug or warning) is kept. A refused gate, an abort and a raised query appear as outcomes, not as log records.
- argparse is left out, apart from `--mac` defaulting to the empty string. The interface name is not checked, as in the code.
- The text of the shell commands is left out, and so are quoting and injection through the interpolated interface name or address. Commands are modelled as structured values.
- The output text of the two `check_output` queries, and the swapped "after"/"before" log labels, are left out. Only the query exit statuses affect the model.
- Reconfigure.ChangeMac: does not model the `UnicodeDecodeError` that `.decode("UTF-8")` raises at lines 67 and 76 when a query prints bytes that are not UTF-8. Undecodable output from the first query would end the run before link down. From the last query it would raise after all five commands. The query output is not an input of the model.
- Exit codes of the process are left out. `logger.catch` turns an exception (a failed query, end of input) into an error log, so each is a distinct outcome.
- HexText.Lower: covers the ASCII letters only. Python's full Unicode `str.lower` is not modelled.
- The regular-expression engine and its backtracking are left out. The model states the set of strings the pattern accepts.
