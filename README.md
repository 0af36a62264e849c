# errs — a Dafny model of goark/errs

This project models the core of the Go package `errs` (github.com/goark/errs),
a package of decorated error values:

- `*Error` (errs.go) carries a message, an optional cause and a string-keyed
  context map. `New` and `Wrap` build one, with the caller's function name and
  any `WithContext` options stored in the context. `Unwrap`, `Cause` and `Is`
  walk the cause chain. The error renders three ways: its display text
  (`Error`, `String`, `%v`, `%s`), JSON (`JSON`, `%+v`, and the free function
  `EncodeJSON`, which also renders errors of other types) and a Go-syntax text.
- `*Errors` (errlist.go) is an aggregate holding a list of errors. `Join` and
  `Add` fill it, dropping nil arguments. `ErrorOrNil`, `Error`, `String`,
  `GoString`, `EncodeJSON` and `Unwrap` read it.
- `*wrapError` (wrapper.go) is an earlier, simpler wrapper: a message plus the
  error it wraps.

The files:

- `encoding.dfy` holds the text encodings the renderers share (module `Encoding`):
  - Go's `%q` quoting;
  - the string writer of `json.Marshal`, which renders the context's keys and values;
  - `json.HTMLEscape`;
  - `strings.Join`, and a `Split` used as its inverse;
  - the sorted key order of `encoding/json`;
  - a small JSON string decoder, the independent reference the quoting is proved against.
- `errs.dfy` holds module `Errs`:
  - Go `error` values as an inductive datatype `Err`;
  - the chain walk, `Is` and the renderings;
  - a class `Error` for the in-place construction and `SetContext`.
- `errlist.dfy` holds module `ErrList`: the class `Errors`, whose `errs` field is a sequence that `Join` and `Add` update.
- `wrapper.dfy` holds module `Wrapper`: `wrapError` as a value type.

An `error` value is one of four kinds:

- `Nil`: the nil interface;
- `NilError`: a nil `*Error` held in a non-nil interface;
- `Node`: a non-nil `*Error`;
- `Foreign`: any other error, given by its `%T` name, its `Error()` text, whether `reflect` sees it as a zero value, and what `errors.Unwrap` returns for it.

Go's `==` on interfaces is datatype equality on these values. This assumes that every dynamic type compared is comparable (see `Errs.Is` under "Left out"). A `*Error` is compared by the snapshot of its fields together with an `id` the caller supplies for the pointer, so two errors are told apart only when they are given different ids (see `Errs.Is` under "Left out"). A nil receiver is modelled in two ways. `SetContext` and the methods of `Errors` are module-level methods that take a nullable reference. For the text, `Unwrap`, `Is` and JSON of `*Error`, a nil receiver is the `NilError` value.

## Model

| member | source | states |
|---|---|---|
| Errs.Error.constructor | errs.go:55 | A fresh `*Error` holds the given message and cause and an empty context. |
| Errs.SetContext | errs.go:76-87 | Nothing changes on a nil receiver. Otherwise a non-empty name maps to the value, an empty name changes nothing, message and cause stay, and the receiver is returned. |
| Errs.PutSemantics | errs.go:76-87 | After SetContext a non-empty name looks up to the new value. Every other key, and every key when the name is empty, looks up to what it had before. |
| Errs.NewError | errs.go:54-65 | The fresh error has the given Msg and Cause. Its context is the caller's name under "function" (when known), followed by the options applied in order. |
| Errs.ApplyOptions | errs.go:61-73 | The options loop of newError: each `WithContext(name, value)` in turn calls SetContext(name, value) on the context built so far. |
| Errs.LaterOptionWins | errs.go:54-73 | After the options run, a key holds the value of the last option that set it (a later WithContext overrides "function"), or its earlier value if none did. |
| Errs.New | errs.go:38-43 | nil exactly when the message is empty. Otherwise a fresh error with that message, no cause and the built context. |
| Errs.Wrap | errs.go:46-51 | nil exactly when err is nil. Otherwise a fresh error whose Cause is err and whose Msg is msg. |
| Errs.Unwrap | errs.go:91-96 | Unwrapping yields nil or a strictly shallower error, so every chain ends. |
| Errs.Chain | errs.go:189-197 | The chain starts at the error itself, and holds only non-nil values no deeper than it. |
| Errs.Root | errs.go:189-197 | The root unwraps to nil. It is nil only for nil, and it lies on the error's chain. |
| Errs.Cause | errs.go:189-197 | The loop returns the root cause of its argument, and nil for nil. |
| Errs.RootIdempotent | errs.go:189-197 | Cause(Cause(e)) == Cause(e). |
| Errs.RootIsLastOfChain | errs.go:189-197 | The root cause is the last value errors.Unwrap reaches. |
| Errs.ChainOfMember | errs.go:189-197 | The chain of any value on a chain lies inside that chain. |
| Errs.IsByChain | errs.go:100-109 | Is is true for the target itself. It is false when the target is its own root and a different value. Otherwise it is true exactly when the target's root is on e's chain. |
| Errs.Is | errs.go:100-109 | (*Error).Is: true when the target is the receiver. Otherwise, when the target's root differs from the target, it is the host errors.Is of the receiver against that root. |
| Errs.HostIs | errs.go:104-105 | The host errors.Is: nil matches only nil. Otherwise some value on err's unwrap chain is the target, or is an `*Error` whose Is reports the target. |
| Errs.HostIsRoot | errs.go:104-105 | errors.Is against a root target is plain chain membership. |
| Errs.HostIsNode | errs.go:100-109 | errors.Is on an `*Error` holds iff the target is on its chain, or the target has a cause and its root is on the chain. |
| Errs.HostIsWrapped | errs.go:46-51 | errors.Is(Wrap(x, msg), x) holds for every non-nil x. |
| Errs.Text | errs.go:113-124 | (*Error).Error: "<nil>" for a nil receiver. Otherwise the message alone when there is no cause, the cause's text when the message is empty, and "msg: cause" otherwise. A foreign error gives its own Error() text. |
| Errs.String | errs.go:128-130 | (*Error).String is the Error() text. |
| Errs.GoString | errs.go:134-139 | "<nil>" for a nil receiver. Otherwise the host's Go-syntax text, given as a parameter. |
| Errs.Format | errs.go:170-186 | `%v` gives GoString with `#`, else JSON with `+`, else Error(). `%s` gives String(). Any other verb gives `%!<verb>(<GoString>)`. |
| Errs.TextIsJoinedSegments | errs.go:113-124 | Error() joins with ": " the messages along the chain of `*Error` nodes. Empty messages are skipped, and a node without a cause ends the text. |
| Errs.FormatTextViews | errs.go:170-186 | String(), `%s` and plain `%v` print Error(). `%+v` prints JSON. |
| Errs.FormatNilReceiver | errs_test.go:61-78 | A nil `*Error` prints "<nil>" for `%v`, `%s` and `%#v`, "null" for `%+v`, and `%!d(<nil>)` for a bad verb. |
| Errs.JSON | errs.go:148-166 | "null" for a nil receiver. Otherwise "{", then the Type, Msg, optional Context and optional Cause elements joined by commas, then "}". |
| Errs.EncodeJSON | errs.go:200-207 | An `*Error`, nil or not, renders with its JSON method, and any other error with encodeJSON. |
| Errs.EncodeGenericJSON | errs.go:218-239 | encodeJSON: "null" for nil. Otherwise the Type and Msg elements, and a Cause element when errors.Unwrap is non-nil, rendered by JSON for an `*Error` and by encodeJSON otherwise. |
| Errs.NodeJSON | errs.go:148-166 | JSON of an `*Error` is the object of its members Type, Msg, optional Context, optional Cause. |
| Errs.ForeignJSON | errs.go:218-239 | Any other error renders as Type, Msg and, when it unwraps to a non-nil value, Cause. |
| Errs.EncodeJSONShape | errs.go:200-239 | nil and a nil `*Error` give "null". Otherwise the keys are Type, Msg, then Context (iff the context is non-empty) and Cause (for `*Error`, iff the cause is non-nil and not a zero value; for others, iff errors.Unwrap is non-nil). The Msg value decodes to exactly Error() when every character of it is one JSON can read back from `%q`. Otherwise it does not decode. |
| Errs.ContextJSON | errs.go:157-161 | `json.Marshal` of the context: an object with one member per key, keys in sorted order, each key and value written by the `json.Marshal` string writer. |
| Errs.TypedNilCauseHidden | errs.go:117-124 | A typed-nil cause still prints as ": <nil>" in the text, yet JSON leaves the Cause member out. |
| Errs.ContextJSONShape | errs.go:157-161 | The Context object lists each context key exactly once, in strictly sorted order. Each value decodes to exactly the stored value. |
| Errs.EntriesDecode | errs.go:157-161 | Each Context entry's value, written by `json.Marshal`, decodes back to exactly the string stored under its key. |
| Errs.NodeShape | errs.go:148-166 | An *Error's JSON is its member object, the Msg member decodes to its text (or not at all when the text holds a control character JSON cannot read back from `%q`), and the keys are Type, Msg, then Context when the context is non-empty, then Cause when a cause is shown. |
| Errs.ForeignShape | errs.go:218-239 | A foreign error's JSON is its member object, the Msg member decodes to its text (with the same exception), and the keys are Type, Msg, then Cause when the error unwraps to something. |
| Errs.EncodeJSONIsSafe | errs.go:155 | The JSON contains none of the characters json.HTMLEscape rewrites, provided the foreign type names contain none. |
| ErrList.Errors.constructor | errlist.go:33 | A new aggregate holds no errors. |
| ErrList.NonNil | errlist.go:34-38 | The kept list holds no nil error. |
| ErrList.NonNilMembers | errlist.go:34-38 | An error is in the kept list exactly when it is one of the arguments and is not nil. |
| ErrList.NonNilCount | errlist.go:24-29 | The kept list's length is the number of non-nil arguments. |
| ErrList.NonNilAppend | errlist.go:49-53 | Filtering distributes over concatenation, so the input order is kept. |
| ErrList.NonNilKeepsAll | errlist.go:34-38 | A list without nil is kept whole. |
| ErrList.NonNilEmpty | errlist.go:21-32 | Nothing is kept exactly when every argument is nil. |
| ErrList.Join | errlist.go:20-40 | nil exactly when every argument is nil (including none). Otherwise a fresh aggregate holding the non-nil arguments in order. |
| ErrList.Add | errlist.go:43-54 | Nothing happens on a nil receiver. Otherwise the non-nil arguments are appended after the unchanged items, and the no-nil invariant is kept. |
| ErrList.AddLength | errlist.go:43-54 | The length grows by exactly the number of non-nil arguments. |
| ErrList.AddOneByOne | errlist.go:43-54 | Two Adds give the same list as one Add of both argument lists. |
| ErrList.CountAfterAdds | example_test.go:56-70 | n Adds of one non-nil error each, on an empty aggregate, leave Unwrap with n items. |
| ErrList.ErrorOrNil | errlist.go:57-67 | nil iff the receiver is nil or empty. Otherwise the receiver. |
| ErrList.ListText | errlist.go:71-88 | The text of a held list: "<nil>" when it is empty. Otherwise the items' Error() texts, one per line. |
| ErrList.Error | errlist.go:71-88 | The loop's result is "<nil>" for a nil or empty aggregate. Otherwise the items' texts joined by newlines. |
| ErrList.String | errlist.go:92-94 | The same text as Error. |
| ErrList.ListTextLines | errlist.go:80-87 | When no item text contains a newline, splitting the text at newlines gives back the item texts. |
| ErrList.ListTextEdges | errlist.go:71-88 | One item prints as that item's text. An empty aggregate prints as a nil error does. |
| ErrList.GoString | errlist.go:98-108 | "<nil>" for a nil or empty aggregate. Otherwise the type name around the host's `%#v` of the list. |
| ErrList.RenderItems | errlist.go:146-151 | The element loop produces exactly the item renderings, one per stored error, in order. |
| ErrList.EncodeJSON | errlist.go:137-155 | The loop builds "null" for nil. Otherwise it builds the object of the Type member and, iff the list is non-empty, the Errs array. |
| ErrList.ListJSONShape | errlist.go:143-154 | The keys are Type, then Errs iff the list is non-empty, with one element per item. |
| ErrList.ItemIsEncodeJSON | errlist.go:147-151 | The extra HTMLEscape changes nothing, so each element is exactly EncodeJSON of the item (given safe foreign type names). |
| ErrList.Unwrap | errlist.go:159-171 | nil for a nil or empty aggregate. Otherwise a fresh array with the same items in the same order, none of them nil. |
| ErrList.UnwrapIsCopy | errlist.go:159-171 | A write to the returned copy and a later Add do not affect each other. |
| Wrapper.AsErr | wrapper.go:32-39 | Seen as an error, the wrapper's text, unwrap and type name are those of `*wrapError`. |
| Wrapper.Wrap | wrapper.go:16-21 | nil for a nil error. Otherwise a wrapper holding the message and the error. |
| Wrapper.Wrapf | wrapper.go:24-29 | The same as Wrap, with the formatted message given as a parameter. |
| Wrapper.Error | wrapper.go:32-34 | "msg: cause", whatever the message. |
| Wrapper.Unwrap | wrapper.go:37-39 | The wrapped error. |
| Wrapper.WrapRoundTrip | wrapper.go:16-29 | Wrap and Wrapf give nil exactly for a nil error. Otherwise the message is kept as given and Unwrap returns the (non-nil) error. |
| Wrapper.EmptyMessageDiffers | wrapper.go:32-34 | With an empty message the wrapper still writes ": ", unlike `*Error`, which then prints only its cause. |
| Wrapper.NonEmptyMessageAgrees | wrapper.go:32-34 | With a non-empty message both wrappers read "msg: cause". |
| Wrapper.CauseThroughWrapper | wrapper.go:37-39 | Cause and the unwrap chain pass through the wrapper to the wrapped error. |
| Encoding.Quote | errs.go:153-155 | `%q` of a string, as modelled: between double quotes, `"` and `\` are backslash-escaped, the ASCII control characters take `\a`, `\b`, `\f`, `\n`, `\r`, `\t`, `\v` or `\x` followed by two lower-case hex digits, DEL takes `\x7f`, and every other character is kept. |
| Encoding.HtmlEscape | errs.go:155 | json.HTMLEscape: `<`, `>`, `&`, U+2028 and U+2029 become `\u003c`, `\u003e`, `\u0026`, `\u2028` and `\u2029`, and every other character is kept. |
| Encoding.MarshalString | errs.go:158 | The `json.Marshal` string writer: between double quotes, `"` and `\` are backslash-escaped, backspace, form feed, newline, carriage return and tab take `\b`, `\f`, `\n`, `\r` and `\t`, the other characters below U+0020 take `\u00` and two lower-case hex digits, the json.HTMLEscape characters take their `\u` escapes, and every other character (DEL included) is kept. |
| Encoding.JsonStringRoundTrip | errs.go:155 | A string written by the modelled `%q` and then HTML-escaped decodes back to the original text exactly when the text has no control character other than backspace, tab, newline, form feed and carriage return, and no DEL. Otherwise the `\a`, `\v` or `\x` escape the modelled `%q` writes is not JSON, and the text does not decode at all. |
| Encoding.DecodeRejected | errs.go:155 | A JSON reader stops at the `%q` escape of any other control character. |
| Encoding.MarshalStringRoundTrip | errs.go:158 | What `json.Marshal` writes for a string decodes back to exactly that string, for every string. |
| Encoding.MarshalStringSafe | errs.go:158 | `json.Marshal`'s string output contains none of the characters json.HTMLEscape rewrites. |
| Encoding.MarshalAgreesText | errs.go:155-158 | On text without the control characters the modelled `%q` escapes its own way, `json.Marshal` and the modelled `%q` followed by json.HTMLEscape write the same string. |
| Encoding.HtmlEscapeIsSafe | errs.go:155 | HTML-escaped text contains no `<`, `>`, `&`, U+2028 or U+2029. |
| Encoding.HtmlEscapeKeepsSafe | errlist.go:149 | Escaping text that is already safe changes nothing. |
| Encoding.HtmlEscapeIdempotent | errlist.go:149 | Escaping twice is escaping once. |
| Encoding.QuoteSafe | errs.go:153 | Quoting safe text keeps it safe. |
| Encoding.SplitJoin | errlist.go:80-87 | Splitting a join at its separator gives back the parts when no part contains the separator. |
| Encoding.SortedKeys | errs.go:158 | The context keys, each once, in strictly increasing order. |

## Left out

- Cyclic chains are outside the model. An error value here is a finite tree, so every unwrap chain ends. In Go, an exported `Cause` field or a foreign `Unwrap` can make a chain cyclic, and then `Cause`, `Error()` and `JSON` do not terminate.
- Context strings follow the `json.Marshal` of current Go, which writes backspace and form feed as `\b` and `\f`. Older Go versions write them as `\u0008` and `\u000c`, which decode to the same characters.
- Concurrency: the `sync.RWMutex` of `Errors` and the goroutines of the 100,000-Add example. `Errors` is modelled sequentially.
- `runtime.Caller`: the caller's function name is an input string, and empty when unknown.
- `%q` is modelled for `"`, `\`, the ASCII control characters and DEL. `json.HTMLEscape` is modelled for `<`, `>`, `&`, U+2028 and U+2029.
  - Runes above ASCII that Go does not count as printable pass through unchanged here. Go writes them as `\u` or `\U` escapes, and a `\U` escape is not JSON either.
  - Invalid UTF-8 is not modelled: strings are sequences of Unicode scalar values.
- `%T` and `reflect`: a foreign error's type name and its zero-ness are fields of the value.
- Errs.GoString, ErrList.GoString: the non-nil `%#v` text is a parameter, not computed.
- Context values are strings only. `json.Marshal` of arbitrary `interface{}` values, and its failure path (which drops the Context member), are not modelled.
- Context: a nil map and an empty map are not told apart. Both render no Context member.
- Options are `WithContext` values only. Arbitrary `ErrorContextFunc` closures are not modelled.
- Errs.Is: `==` on error values compares snapshots. Two `New` calls given the same id and message yield equal values, so `Is` holds between them, where Go compares the two distinct pointers and `Is` is false. Callers must give distinct pointers distinct ids.
- Errs.HostIs: `errors.Is` compares by snapshot too. An error changed by SetContext after it was wrapped is unequal to the snapshot inside the wrapper, so `HostIs(wrapper, changed)` is false, where Go's `errors.Is` is true because the wrapper holds the same pointer.
- Errs.Is: every dynamic type is taken to be comparable. In Go, when the root cause of the target is a value of an uncomparable type (one holding a slice, map or function), `(*Error).Is` panics and the model returns false. If the target is its own root, the panic comes from `cause != target` at errs.go:105, which compares two values of that type. Otherwise it comes from the nested `errors.Is`, which calls `Is` again with that root as the target.
- Errs.HostIs: every dynamic type is taken to be comparable. For an uncomparable target, Go's `errors.Is` skips its own `==` test and still calls `(*Error).Is` on each `*Error` of the chain, which panics as above. The model instead compares by datatype equality and returns a truth value.
- Errs.HostIs: the host `errors.Is` is modelled by two rules only: chain membership, and the `Is` method of `*Error` values. Other types' `Is` methods and multi-error unwrapping (`Unwrap() []error`) are not modelled.
- Errs.Text: a foreign error's `%v` text is taken to be its `Error()` text.
- Errs.Format: only the verb and flag dispatch. The `fmt.State`/`io.Copy` plumbing and the Go-syntax text are not modelled.
- Values and aliasing: a chain holds the value an `*Error` had when it was wrapped. A later SetContext on an error that is already wrapped does not show through the wrapper.
- ErrList.ItemIsEncodeJSON requires foreign type names free of `<`, `>`, `&`, U+2028 and U+2029. Otherwise the extra escape changes the type name.
- Errs.EncodeJSONIsSafe requires foreign type names free of those same characters.
- `(*Errors).Format` (errlist.go:118-134) is not modelled.
- `MarshalJSON` (errs.go:143-145, errlist.go:112-114) is a byte-slice wrapper around JSON/EncodeJSON and is not modelled.
- Wrapper.Wrapf: the message `fmt.Sprintf` would produce is a parameter.
- The xerrors `Format`/`FormatError` and the call-site frame of `wrapError` are not modelled.
- zapobject and the sample programs are not part of this model.
- errs_test.go and `ExampleNew`/`ExampleError` expect a later revision of `Error`, with an `Err` field, `WithCause` and `As`. Only the nil-receiver rows of errs_test.go agree with errs.go, and only those are modelled.
