# Backup-job dispatcher of pi_network_imager, modelled in Dafny

The main OS of a Raspberry Pi hands backup jobs to a separate backup OS
through a shared directory. A small HTTP service (`server.py`) receives
`POST /backup` and `POST /sdimage`. It merges the query string with an
optional JSON body, validates the mode, and checks that the shared directory
exists. It then writes a job descriptor: a `KEY="VALUE"` request file with
the mode, the health-check and maintenance flags, the node name and the
passthrough variables of the container's environment. Last it writes a flag
file that tells the backup OS a job is waiting, and answers with a JSON
status.

The project models that core:

- `Text`: the Python string operations the code relies on: `strip`,
  `rstrip`/`strip` with a character set, `lower`, and the substring test.
- `Coerce`: `_to_bool`.
- `Escape`: `_shell_escape`, with a reader of double-quoted values as its
  inverse.
- `ImagePrefix`: `_append_prefix_suffix`.
- `Request`: the merge in `_read_request`.
- `Descriptor`: the passthrough collection, the IMAGE_PREFIX rewrite and the
  assembly of the descriptor lines, with a reader that parses them back.
- `JobFiles`: the shared directory as a class holding a map from file names
  to contents, and `_write_job_files` as methods on it. The write is
  specified as a sequence of file operations, and a fault can stop it after
  any of them. The methods for the phases of the write take the header line
  as a parameter; `WriteJobFiles` passes the constant header of the source.
- `Server`: configuration, routing, `_ensure_shared_dir` and `do_POST`.
  `Handle` is the decision as a function; `HandleJob` is its part after the
  routing. `DoPost` carries it out step by step and is proved equal to it.

Configuration is read from an environment map given as an input, instead of
from `os.getenv` at import time. The environment of the passthrough variables
is an input as well. A failing file operation is an input too (`faultAt`: the
number of the operation that raises).

## Model

| member | source | states |
|---|---|---|
| `Text.Lower` | server.py:29 | lower-casing keeps the length and maps each character by ASCII lower-casing |
| `Text.StripShape` | server.py:29 | `str.strip()` leaves no whitespace at either end |
| `Text.StripPadded` | server.py:29 | whitespace added around a string does not change its stripped form |
| `Text.LStripShape` | server.py:54-61 | stripping from the left returns a suffix of the argument that does not start with a stripped character |
| `Text.RStripShape` | server.py:60-61 | `rstrip(chars)` returns a prefix of the argument that does not end with a stripped character |
| `Text.RStripRemoves` | server.py:60 | what `rstrip(chars)` removes consists of those characters only |
| `Text.TooLongNotContained` | server.py:65 | a string is never contained in a shorter one |
| `Text.OccursInExtension` | server.py:65 | an occurrence inside a prefix of a string is an occurrence in the string |
| `Coerce.Normalize` | server.py:29 | the comparison key has no surrounding whitespace and no upper-case ASCII letter |
| `Coerce.ToBool` | server.py:21-34 | a boolean is returned as it is, an integer is true exactly when non-zero, and `None` or a value of another type gives the default |
| `Coerce.ToBoolUsesDefaultIffUnrecognised` | server.py:21-34 | the default decides exactly for values that are not booleans, integers or one of the eight tokens, and it is then returned unchanged |
| `Coerce.ToBoolOfToken` | server.py:28-33 | a normalised string in the token sets is true exactly for `1`, `true`, `yes`, `on` |
| `Coerce.TokensDisjoint` | server.py:30-33 | no token is both true and false |
| `Coerce.ToBoolIgnoresPadding` | server.py:29 | whitespace around a string does not change its coercion |
| `Coerce.ToBoolIgnoresCase` | server.py:29 | strings that agree after lower-casing coerce alike |
| `Coerce.NormalizeFixed` | server.py:29 | a trimmed string without upper-case letters is its own key, so normalising twice changes nothing |
| `Coerce.ToBoolBanana` | server.py:28-34 | an unknown word falls back to the default, `true` and `false` alike |
| `Escape.ShellEscape` | server.py:37-44 | escaping adds exactly one character per backslash and one per double quote; `ShellEscapeIsPerChar` and `ReadQuotedEscaped` state its round trip |
| `Escape.ReplaceChar` | server.py:44 | `str.replace` of one character grows the string by one length difference per occurrence |
| `Escape.ShellEscapeIsPerChar` | server.py:43-44 | the two replacements, backslash first, equal escaping each character on its own |
| `Escape.ReadQuotedEscaped` | server.py:37-44 | an escaped value between double quotes reads back as the original value, and reading stops at the closing quote |
| `Escape.ShellEscapePlain` | server.py:44 | a value without backslashes and quotes is left as it is |
| `Escape.EscapeOrderMatters` | server.py:44 | replacing quotes before backslashes would break the round trip: `"` would come back as a backslash and an unclosed quote |
| `ImagePrefix.AppendPrefixSuffix` | server.py:47-71 | a blank suffix returns the trimmed prefix; any other suffix gives a result ending in `_` |
| `ImagePrefix.Extend` | server.py:60-71 | all three branches of the non-blank case end in `_` |
| `ImagePrefix.NonBlankSuffixShape` | server.py:60-71 | with a non-blank suffix the result ends in `_`, starts with the prefix without its trailing underscores and contains `_token_` |
| `ImagePrefix.PresentSuffixNotRepeated` | server.py:64-66 | a token already present is not appended again; only a missing final underscore is added |
| `ImagePrefix.AbsentSuffixAppended` | server.py:68-71 | an absent token is appended after exactly one underscore, or alone after an empty prefix |
| `ImagePrefix.Idempotent` | server.py:47-71 | applying the transform to its own result with the same suffix changes nothing, when the token does not begin with whitespace |
| `ImagePrefix.IdempotenceNeedsTokenWithoutLeadingSpace` | server.py:54-71 | for a suffix `_ X` the second application appends the token again, so the condition of `Idempotent` is needed |
| `ImagePrefix.DocumentedExample` | server.py:48-50 | `nas` with `BACKUP-OS` gives `nas_BACKUP-OS_` |
| `ImagePrefix.AlreadyPresentExample` | server.py:64-66 | `nas_BACKUP-OS` with `BACKUP-OS` only gains the final underscore |
| `ImagePrefix.TrailingUnderscoresExample` | server.py:60-71 | `nas__` with `BACKUP-OS` also gives `nas_BACKUP-OS_` |
| `ImagePrefix.EmptyPrefixExample` | server.py:68-69 | an empty prefix with `BACKUP-OS` gives `BACKUP-OS_` |
| `Request.FromQuery` | server.py:79-83 | the query gives an absent mode exactly when it has no `mode`, and a flag it does not mention is false |
| `Request.Override` | server.py:90-96 | each key present in the JSON object replaces its parameter (the mode as it is), each absent key keeps the query's value |
| `Request.ReadRequest` | server.py:74-100 | a body that is not a JSON object leaves the query's values; a body `mode` replaces the query's mode, and without one the query's mode stays; an object without `bos_maintance` or without `bos_update` keeps the query's value of that flag |
| `Request.DefaultsWithoutInput` | server.py:81-96 | a parameter mentioned by neither the query nor the body is absent (the mode) or false (the flags) |
| `Request.RecognisedBodyFlagWins` | server.py:93-94 | a recognised body `bos_maintance` decides that flag, whatever the query said |
| `Request.UnrecognisedBodyFlagKeepsQuery` | server.py:93-94 | an unrecognised body `bos_maintance` keeps the query's value as the default |
| `Request.RecognisedBodyUpdateWins` | server.py:95-96 | a recognised body `bos_update` decides that flag, whatever the query said |
| `Request.UnrecognisedBodyUpdateKeepsQuery` | server.py:95-96 | an unrecognised body `bos_update` keeps the query's value as the default |
| `Request.FullBodyIgnoresQuery` | server.py:90-96 | a body with all three keys and recognised flags makes the query irrelevant |
| `Request.BosUpdateIndependent` | server.py:81-96 | two requests whose query and body differ at most in `bos_update`, for any kind of body, merge to the same mode and `bos_maintance` |
| `Descriptor.PassthroughKeysWellFormed` | server.py:188-210 | the 21 passthrough names contain no `=` and no duplicates, IMAGE_PREFIX comes first, and BOS_UPDATE is not among them |
| `Descriptor.PassthroughKeysPlain` | server.py:188-210 | no passthrough name contains `=`, so the name of each line ends at its first `=` |
| `Descriptor.PassthroughKeysDistinct` | server.py:188-210 | the passthrough names are pairwise different, so no variable is collected twice |
| `Descriptor.Passthrough` | server.py:212-216 | the collection has at most one entry per visited key, each a set variable with its value from the environment |
| `Descriptor.SetValue` | server.py:220 | assigning to a present name changes no name and no position, and no value under another name |
| `Descriptor.WithEffectivePrefix` | server.py:218-223 | the IMAGE_PREFIX rewrite keeps every name in place and every value other than IMAGE_PREFIX |
| `Descriptor.Existing` | server.py:212-223 | the finished dictionary has at most 21 entries, each a set variable, with every value other than IMAGE_PREFIX copied from the environment |
| `Descriptor.CollectExisting` | server.py:212-223 | the loop and the IMAGE_PREFIX rewrite compute the `existing` dictionary |
| `Descriptor.PassthroughIsFilter` | server.py:212-216 | the collected names are the set variables in key order, each with its value from the environment |
| `Descriptor.LookupPassthrough` | server.py:212-216 | looking a name up in the collection gives its environment value exactly when it is a passthrough name that is set |
| `Descriptor.ExistingContents` | server.py:212-223 | the rewrite keeps names and order; IMAGE_PREFIX gets the suffix when set and not blank; the other values are unchanged |
| `Descriptor.AssembleLines` | server.py:225-234 | the appends produce MODE, HEALTH_CHECK, BOS_MAINTANCE, the optional node name, then one line per passthrough variable |
| `Descriptor.HeadLines` | server.py:225-231 | there are four head lines when a node name is configured and three otherwise |
| `Descriptor.QuotedLines` | server.py:233-234 | one quoted line per entry of the dictionary, in its order |
| `Descriptor.DescriptorLines` | server.py:225-234 | the head lines are followed by exactly one quoted line per entry of `existing`, in order |
| `Descriptor.ReadQuotedLine` | server.py:226-234 | a line written by `Quoted` reads back as its name and its unescaped value |
| `Descriptor.ReadFlagLine` | server.py:227-228 | an unquoted flag line reads back as `true` or `false` |
| `Descriptor.ReadHeadLines` | server.py:225-231 | the lines before the passthrough variables read back as MODE, HEALTH_CHECK, BOS_MAINTANCE and, when configured, the node name |
| `Descriptor.DescriptorReadsBack` | server.py:225-234 | the descriptor lines read back as exactly the intended assignments, HEALTH_CHECK `true` only for `with-health` |
| `Descriptor.ExistingNamesPlain` | server.py:212-216 | every name in the finished dictionary is free of `=` |
| `Descriptor.PresentKeysDistinct` | server.py:212-216 | filtering distinct keys by whether they are set keeps them distinct |
| `Descriptor.ExistingNamesDistinct` | server.py:212-223 | no name occurs twice in the finished dictionary, as in a Python `dict` |
| `JobFiles.JobOps` | server.py:114-131 | the write has six operations besides the lines, and each touches only the status files, the request file or the flag file |
| `JobFiles.OpsPrelude` | server.py:117-125 | the write starts by discarding both status files, then creates the request file and writes its header |
| `JobFiles.OpsLine` | server.py:126-127 | operation `4 + j` appends line `j` and a newline to the request file |
| `JobFiles.OpsFinale` | server.py:129-131 | the last two operations create the flag file and write `pending` to it |
| `JobFiles.ApplyOpsFrame` | server.py:114-131 | a file that no operation names is left as it was |
| `JobFiles.SharedDir.Exists` | server.py:121 | `os.path.exists` reports whether the file is in the directory |
| `JobFiles.SharedDir.Remove` | server.py:122 | `os.remove` takes exactly that file away |
| `JobFiles.SharedDir.Open` | server.py:124 | opening for writing creates or truncates the file |
| `JobFiles.SharedDir.Write` | server.py:125-127 | a write appends to the file |
| `JobFiles.SharedDir.WriteJobFiles` | server.py:109-133 | the directory is the result of the operations done before the fault, and the request and flag names come back exactly when all were done |
| `JobFiles.SharedDir.RemoveStatusFiles` | server.py:117-122 | both status files are discarded unless a fault comes first |
| `JobFiles.SharedDir.WriteRequestFile` | server.py:124-127 | the request file is created, then the header and each line with a newline are written |
| `JobFiles.SharedDir.WriteRequestLines` | server.py:126-127 | each descriptor line followed by a newline is appended to the request file, in order, until a fault stops the loop |
| `JobFiles.SharedDir.WriteFlagFile` | server.py:129-131 | the flag file is created with `pending` |
| `JobFiles.DiscardMissing` | server.py:120-122 | discarding a status file that does not exist changes nothing |
| `JobFiles.NamesDistinct` | server.py:114-119 | request, flag and status files of a job are four different files |
| `JobFiles.Progress` | server.py:117-131 | each prefix of the write leaves the directory in a stated closed form |
| `JobFiles.CompleteWrite` | server.py:109-133 | after a complete write the status files are gone, the request file is the header and the lines, the flag says `pending`, and other files are unchanged |
| `JobFiles.InterruptedWrite` | server.py:117-131 | at any point of the write a new flag file exists only beside a complete request file, and other files are unchanged |
| `JobFiles.StaleFlagBesidePartialRequest` | server.py:124-131 | a flag left from an earlier job can sit beside a request file that only has its header |
| `Server.LoadConfig` | server.py:12-18 | each setting is its variable's value when set; otherwise the shared directory is `/backupos_shared`, the node name empty and the suffix `[MAIN-OS]` |
| `Server.Route` | server.py:161-163 | exactly `/backup` and `/sdimage` are routed, `/backup` to the backup job |
| `Server.ValidMode` | server.py:170 | a valid mode is one of the strings `dry-run`, `no-health` and `with-health` |
| `Server.Handle` | server.py:155-285 | 404 exactly for an unrouted path, with `not_found` and no file changed |
| `Server.HandleJob` | server.py:168-285 | after the routing the answer is 200, 400 or 500; 400 exactly for an invalid mode; `shared_dir_missing` exactly for a valid mode without the directory; neither refusal changes a file |
| `Server.WriteOutcome` | server.py:236-285 | 200 with a scheduled payload exactly when no operation of the write fails, otherwise 500 `write_failed` |
| `Server.EnsureSharedDir` | server.py:103-106 | the error message is returned exactly when the shared directory does not exist |
| `Server.DoPost` | server.py:155-285 | response and resulting files are those of `Handle` |
| `Server.DoJob` | server.py:168-285 | after the routing, the response and the resulting files are those of `HandleJob` for the merged parameters |
| `Server.RoutesToJobFiles` | server.py:236-266 | `/backup` uses the `backup` request, flag and status files and `/sdimage` the `sdimage` ones |
| `Server.NotFoundIffUnknownPath` | server.py:161-163 | 404 exactly for paths other than `/backup` and `/sdimage`, and the directory is untouched |
| `Server.InvalidModeIff` | server.py:168-175 | on a job path, 400 with the three allowed modes exactly when the merged mode is not one of them, and nothing is written |
| `Server.MissingSharedDirWritesNothing` | server.py:177-182 | a valid request against a missing directory gets 500 `shared_dir_missing` with the message, and nothing is written |
| `Server.ScheduledJobReadsBack` | server.py:225-281 | a scheduled job answers 200 with its status, the merged mode and `bos_maintance`, the shared directory and its file names; its request file holds the header and lines that read back as the intended assignments; its flag says `pending`; its status files are gone |
| `Server.JobLinesReadBack` | server.py:212-234 | the lines assembled for a request read back as its assignments, because the passthrough names are plain |
| `Server.FailedWriteLeavesPrefix` | server.py:236-285 | a fault answers 500 `write_failed`; a new flag appears only with a complete request file; other files are unchanged |
| `Server.EffectivePrefixReported` | server.py:218-223 | the reported effective IMAGE_PREFIX is the extended value, the blank value as it is, or none |
| `Server.HandleJobIgnoresBosUpdate` | server.py:168-281 | once the parameters are merged, the value of `bos_update` changes neither the response nor the files |
| `Server.BosUpdateIgnored` | server.py:168-281 | two requests whose query and body differ at most in `bos_update`, with any kind of body, get the same response and leave the same files |

The documented example of idempotence holds (`nas` → `nas_BACKUP-OS_`, again
unchanged). The code is not idempotent for every suffix, though. A suffix
token that begins with whitespace (`_ X`) survives into the first result and
is trimmed away on the second call, so the token is appended again.
`Idempotent` states the condition under which the promise holds, and
`IdempotenceNeedsTokenWithoutLeadingSpace` shows that the condition is needed.

The configured default suffix is `[MAIN-OS]` (server.py:18). `BACKUP-OS` only
appears in the documentation of `_append_prefix_suffix`, and the model follows
the code.

## Left out

- HTTP plumbing is not modelled: the server loop, `_send_json` and its JSON
  encoding and headers, `log_message`, `main`, HOST and API_PORT. A response
  is a code and a payload datatype.
- URL parsing, `parse_qs`, UTF-8 and JSON decoding are not modelled. Their
  results are inputs: the query as a map of first values, and the body as
  none, malformed, not an object, or an object of values.
- Reading `Content-Length` is not modelled (server.py:85). A value that is
  not a number raises outside the `try`, and no response is sent.
- `print` calls (server.py:244-247 and 268-271) are left out.
- The `details` of `write_failed` (`str(e)` of the OS error)
  are not modelled.
- Exceptions inside the `try` other than a failing file operation are not
  modelled.
- Whitespace and case are ASCII only: `strip` removes the ASCII characters
  Python treats as whitespace, and `lower` maps `A`-`Z`. Non-ASCII whitespace
  and case mappings are not modelled.
- `JobFiles.SharedDir.RemoveStatusFiles`: the existence check and `os.remove`
  count as one operation that can fail. A status path that is a directory,
  and permission errors, appear only as that abstract failure.
- Writes become visible in call order. Buffering, flushing on close, and
  concurrent requests or a backup OS reading mid-write are not modelled.
- `os.makedirs(..., exist_ok=True)` after a successful `isdir` check does
  nothing in the model. A directory that disappears between the check and the
  write is not modelled.
- Paths are file names inside the shared directory; `os.path.join` and
  `os.path.basename` cancel out.
- `Descriptor.DescriptorReadsBack`: the reader understands only the escapes
  `\\` and `\"`, as the escaping intends. A shell that sources the file would
  also expand `$` and backquotes, which are not escaped. The read-back works
  line by line, so a value containing a newline is not covered at the level
  of the file text.
- The `existing` dictionary is a sequence of pairs in insertion order. Its
  names are distinct (`Descriptor.ExistingNamesDistinct`), so it behaves as
  the Python `dict` it models.
