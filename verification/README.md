# easyclient helpers in Dafny

easyclient is a thin REST client wrapper. Its request methods and its
authentication classes forward every call to the `objectrest` library. The
logic it holds itself is in two helper modules, and this project models
them:

- the request-parameter helpers (`easyclient/parameters/__init__.py`).
  `build_optional_params` keeps the keyword arguments worth sending.
  `one_needed` and `which_used` check that at least one argument is set.
  `is_invalid_choice` validates an enum-like value. `bool_to_int`,
  `comma_delimit` and `int_list_to_string` encode values for a query string;
- the formatting utilities (`easyclient/utils.py`). `make_plural` picks a
  plural suffix. `milliseconds_to_minutes_seconds` renders a duration as `MM:SS`.

Files:

- `py_value.dfy` (module `PyValue`): the Python values the helpers see
  (None, bool, int, str, list), Python truthiness, and Python `==` and `in`.
  `True == 1` and `False == 0` hold here, as they do in Python.
- `text.dfy` (module `Text`): `str()` of an integer, `int()` of a decimal
  literal, `sep.join`, `str.split` and `str.count`, with their round trips.
- `parameters.dfy` (module `Parameters`): the parameter helpers. Keyword
  arguments are a sequence of (name, value) pairs in call order. A returned
  dict is the same kind of sequence, in insertion order. The three helpers
  that loop in the source are methods with loops, each proved against a
  specification function: `TruthyEntries`, `AnyTruthy` and `FirstTruthy`.
  Lemmas then prove what those functions promise and how they agree.
- `utils.dfy` (module `Utils`): the formatting functions, plus a reader for
  `MM:SS` strings that serves as the inverse of the duration formatter.

Modelling decisions:

- Truthiness, not "not None". The docstrings of `build_optional_params`,
  `one_needed` and `which_used` say they look for values that are "not None".
  The code tests `if v:`, so `0`, `""`, `False` and `[]` are dropped as well.
  The model follows the code. `DroppedFalsyExample` pins down that boundary.
- `which_used` returns the Python tuple itself. A found argument gives
  `(Str(key), value)`. When no argument is truthy, the result is `(None, None)`.
- `one_needed` returns `Returned(true)` or `Raised`. The exception's message
  is not modelled.
- `milliseconds_to_minutes_seconds` is modelled for every integer input, not
  just non-negative ones. `int(x / 1000)` and `int(x / 60)` become division
  truncated toward zero (`TruncDiv`). Python's `% 60` never returns a negative
  result, and neither does Dafny's. So a negative input gives what Python
  gives, for example `"00:59"` for -1500. The format and round-trip
  properties are stated for inputs of at least 0.
- `BuildOptionalParams` requires distinct keys. Python never passes the same
  keyword twice, so `params[k] = v` always adds a new key, and the model
  appends.

## Model

| member | source | states |
|---|---|---|
| `Parameters.BuildOptionalParams` | easyclient/parameters/__init__.py:13-17 | the loop returns exactly the filtered entries `TruthyEntries(kwargs)`, and the resulting dict has no key twice |
| `Parameters.TruthyEntriesMembership` | easyclient/parameters/__init__.py:13-17 | an entry is in the result if and only if it is an argument whose value is truthy; values are unchanged |
| `Parameters.TruthyEntriesAllTruthy` | easyclient/parameters/__init__.py:15-16 | every kept value is truthy, so None, 0, "", False and [] never reach the dict |
| `Parameters.TruthyEntriesOrdered` | easyclient/parameters/__init__.py:14-16 | the kept entries are a subsequence of the arguments, in the same order |
| `Parameters.TruthyEntriesKeys` | easyclient/parameters/__init__.py:13-17 | only keys passed in come out, and the keys that come out are exactly those with truthy values |
| `Parameters.TruthyEntriesIdempotent` | easyclient/parameters/__init__.py:13-17 | filtering the result again changes nothing |
| `Parameters.TruthyEntriesDistinct` | easyclient/parameters/__init__.py:13-17 | distinct argument names give a dict with distinct keys |
| `Parameters.DroppedFalsyExample` | easyclient/parameters/__init__.py:5-15 | for `a=None, b="", c="x", d=0, e=False` only `c="x"` is kept, although the docstring promises only to drop None |
| `Parameters.OneNeeded` | easyclient/parameters/__init__.py:62-68 | returns if and only if some argument is truthy, and then returns True; it never returns False |
| `Parameters.WhichUsed` | easyclient/parameters/__init__.py:80-83 | the loop with its early return yields `FirstTruthy(kwargs)` |
| `Parameters.FirstTruthyIsFirst` | easyclient/parameters/__init__.py:80-83 | `(None, None)` if and only if no argument is truthy; otherwise the (key, value) of a truthy argument with every earlier argument falsy |
| `Parameters.FirstTruthyHeadsTruthyEntries` | easyclient/parameters/__init__.py:13-83 | `which_used` answers the first entry `build_optional_params` keeps, or `(None, None)` when it keeps nothing |
| `Parameters.AnyTruthyAgreement` | easyclient/parameters/__init__.py:62-83 | `one_needed` returns exactly when `build_optional_params` keeps something and exactly when `which_used` does not answer `(None, None)` |
| `Parameters.IsInvalidChoice` | easyclient/parameters/__init__.py:98-100 | true if and only if the value is truthy and equals none of the choices under Python `==` |
| `Parameters.FalsyNeverInvalid` | easyclient/parameters/__init__.py:98-100 | a falsy value is never invalid, whatever the choices |
| `Parameters.ListedChoiceIsValid` | easyclient/parameters/__init__.py:98-100 | a value that is itself one of the choices is never invalid |
| `Parameters.TrueMatchesOneExample` | easyclient/parameters/__init__.py:98 | `True` is accepted among the choices `[1, 2]`, because Python equates it with 1; 3 is rejected |
| `PyValue.In` | easyclient/parameters/__init__.py:98 | Python `in` on a list holds if and only if some element compares equal |
| `Parameters.BoolToInt` | easyclient/parameters/__init__.py:29-31 | the result is 0 or 1, and 1 exactly when the argument is truthy |
| `Parameters.BoolToIntRoundTrip` | easyclient/parameters/__init__.py:29-31 | reading the result as a Python boolean gives back the argument's truthiness; for a real bool, Python's `==` equates the result with it |
| `Parameters.CommaDelimit` | easyclient/parameters/__init__.py:48-49 | an empty list gives "" and a single item gives that item |
| `Parameters.CommaDelimitCommas` | easyclient/parameters/__init__.py:48-49 | for a non-empty list, n items give n - 1 commas beyond those inside the items |
| `Parameters.CommaDelimitSplit` | easyclient/parameters/__init__.py:48-49 | for a non-empty list, splitting the result on ',' recovers the items when none of them contains a comma (for `[]`, `''.split(',')` is `['']`) |
| `Text.SplitJoin` | easyclient/parameters/__init__.py:49 | `sep.join` followed by `split(sep)` is the identity on non-empty lists of items without the separator |
| `Text.JoinSplit` | easyclient/parameters/__init__.py:49 | `split(sep)` followed by `sep.join` is the identity on every string |
| `Text.CountJoin` | easyclient/parameters/__init__.py:49 | joining n items inserts exactly n - 1 separators |
| `Parameters.Decimals` | easyclient/parameters/__init__.py:44 | `map(str, …)` keeps the length and renders each integer in decimal |
| `Text.NatToDecimal` | easyclient/parameters/__init__.py:44 | `str` of a non-negative integer is a non-empty string of digits with no leading zero, one digit exactly below 10 |
| `Text.IntToDecimalRoundTrip` | easyclient/parameters/__init__.py:44 | `int(str(i)) == i` for every integer |
| `Parameters.IntListToString` | easyclient/parameters/__init__.py:44-45 | an empty list gives ""; a non-empty list of n numbers gives exactly n - 1 commas, and splitting on ',' gives the decimal rendering of each number in order |
| `Parameters.IntListRoundTrip` | easyclient/parameters/__init__.py:44-45 | for a non-empty list, splitting the string on ',' and reading each piece with `int()` gives back the list (for `[]` the only piece is `''`, which `int()` rejects) |
| `Parameters.IntListExample` | easyclient/parameters/__init__.py:37 | `[0, 1, 4]` gives `"0,1,4"` |
| `Utils.MakePlural` | easyclient/utils.py:7-10 | the suffix is appended exactly when the count is above 1; for 1, 0 and negative counts the word comes back unchanged |
| `Utils.MakePluralDefault` | easyclient/utils.py:7 | the default suffix is "s", and the word is always a prefix of the result |
| `Utils.TruncDiv` | easyclient/utils.py:30-31 | `int(a / b)` truncates toward zero: floor division for a >= 0 and the bounds of the truncated quotient for a < 0 |
| `Utils.PaddedDigits` | easyclient/utils.py:32-36 | a field below 10 gets one leading zero and exactly two digits; from 10 on it is the plain decimal, and its value is the number |
| `Utils.MillisecondsToMinutesSeconds` | easyclient/utils.py:29-37 | for ms >= 0, reading the string back as minutes × 60 + seconds gives ms div 1000; the sub-second remainder is dropped |
| `Utils.ClockFields` | easyclient/utils.py:32-37 | the minutes and seconds fields sit on either side of the colon of `f"{minutes}:{seconds}"` and read back as minutes × 60 + seconds |
| `Utils.MinutesSecondsFields` | easyclient/utils.py:29-37 | for ms >= 0: minutes field, ':', then exactly two digits worth 00 to 59; the minutes field has at least two digits, holds all ms div 60000 minutes and is never capped |
| `Utils.SameSecondSameString` | easyclient/utils.py:30 | two inputs in the same truncated whole second give the same string |
| `Utils.MinutesSecondsInjective` | easyclient/utils.py:29-37 | for ms >= 0, two strings are equal if and only if the inputs lie in the same whole second |
| `Utils.MinutesSecondsExamples` | easyclient/utils.py:29-37 | 6,000,000 ms gives "100:00", and 61,999 ms gives "01:01" |
| `Utils.NegativeDurationExample` | easyclient/utils.py:30-36 | -1500 ms gives "00:59", the result of truncating division followed by Python's non-negative `%` |

## Left out

- The REST facades in `easyclient/client/rest/client.py` are not modelled. This covers every verb method, their async twins, `_process_blind` and `_async_process_blind`. Each one forwards to an `objectrest` request handler or response whose code is not part of this model.
- The authentication classes in `easyclient/base/auth.py` are not modelled. Each `_construct_handler` only passes its arguments to an `objectrest` handler constructor. OAuth2 token exchange happens inside that library.
- `datetime_to_string` and `now_plus_milliseconds` in `easyclient/utils.py` are not modelled. They depend on `strftime`, the wall clock and `pytz` time zones.
- `Utils.MillisecondsToMinutesSeconds` uses exact integer division where Python divides floats. The two agree for |ms| < 2^53; beyond that float rounding may differ (for example at ms = 17592186044416999, where `ms / 1000` rounds up to a whole number). For |ms| above about 1.8·10^311 the source raises `OverflowError`, which is not modelled.
- `Parameters.OneNeeded` models the exception as `Raised`, without its message. The source's message is a plain string, not an f-string, so it would contain literal braces.
- Python values other than None, bool, int, str and list are not modelled. That excludes float, dict, tuple and arbitrary objects, along with their truthiness and equality. `Parameters.CommaDelimit` takes strings only: `','.join` raises `TypeError` for anything else, and that error path is not modelled.
- `Parameters.IsInvalidChoice` models `in` by equality only. Python also checks identity first, which makes no difference for the value kinds modelled here.
- `test.py` is not modelled. It is a script that calls a live web API and asserts nothing.
