# rust-ptouch-usb, modelled in Dafny

This project models the core of a Rust driver for Brother QL label printers attached over USB. The model covers:

- **Printer-model tables** (`model.dfy`, module `Models`): parsing a model name, decoding the model code of a status reply, the USB product id, the print-head width and the display name.
- **Print-head widths** (`lib.dfy`, module `Lib`): the normal and wide widths (720 and 1296 pins), the `Matrix` alias (rows of bytes), and the shared `Option` type.
- **Raster bit packing** (`utils.dfy`, module `Utils`): `step_filter` thresholds a grayscale buffer, packs eight pixels per byte, and mirrors each row.
  - The nested loops are methods.
  - Each method is proved equal to the reference function `Filtered`, whose bit-level meaning is proved separately.
- **The USB printer profile** (`printer_profile.dfy`, module `PrinterProfile`):
  - The 32-byte status decoder with its status-type, phase and notification tables, and the media check.
  - What a bulk write reports.
  - The ten-attempt status read loop.
  - The first-match device search of `open_device` and `build_usb_profile`.
- **The printer's command layer** (`printer.dfy`, module `Printer`):
  - The print `Config`, its setters and its serialisation `build`.
  - The byte payloads of the single commands.
  - A command that issues several writes, and stops at the first one that fails.
  - The single-page frame that `print_label` builds and writes.
  - The printer's own duplicate status decoder, device search and countdown status read.
- **Errors and transport outcomes** (`errors.dfy`, module `Errors`): the driver's error values, and what the USB library reports for one probe, read or write.

The model replaces the USB library with plain data:

- A read or write is represented by the outcome the library reported for it.
- The device is a function from the attempt number to the reply of that read.
- The enumerated devices are a sequence of records, one per device. Each record holds what probing the device yielded: its descriptor, whether it opens, its string-descriptor languages and its serial number.
- `Media::from_buf` and `PrinterError::from_buf` are defined in files this model does not include. They are passed to the decoders as function-valued parameters (`SubDecoders`), and media is a type parameter with equality.

Bytes are `bv8`. The image row count is cut to 32 bits, as the Rust `as u32` cast does.

`Model::from_code` panics on an unknown model code (src/model.rs:49). Every status decoder therefore requires a known model byte. The profile's read decodes each 32-byte reply before it checks the phase (src/printer/printer_profile.rs:236-239). It therefore requires every 32-byte reply it decodes, up to the one it returns, to carry a known model code. The countdown read requires this only of the first 32-byte reply. Both conditions are stated by `NoPanicFrom`.

## Model

| member | source | states |
|---|---|---|
| Lib.ToInt | src/lib.rs:26-41 | NORMAL gives 720 and WIDE gives 1296, exactly, and both are whole bytes: 90 and 162. |
| Models.FromStr | src/model.rs:26-38 | Every name it accepts yields one of the eight supported models. |
| Models.FromStrExactly | src/model.rs:26-38 | A name parses exactly when it is one of the eight listed names. |
| Models.FromCode | src/model.rs:39-51 | Defined only for the eight known model codes (any other code panics); every code yields a supported model. |
| Models.FromCodeCoversSupported | src/model.rs:26-51 | A model is decoded from some status code exactly when it is one of the eight parseable models. |
| Models.FromCodeInjective | src/model.rs:39-51 | Distinct model codes decode to distinct models. |
| Models.Pid | src/model.rs:53-65 | The product id is non-zero exactly for the eight supported models and fits in 16 bits. |
| Models.QL800Example | src/model.rs:26-65 | QL-800 has product id 0x209B, parses from "QL-800", and is what status code 0x38 displays as. |
| Models.PidInjective | src/model.rs:53-65 | The eight supported product ids are pairwise distinct. |
| Models.Pins | src/model.rs:67-76 | 1296 pins for the five wide models and 720 for every other model. |
| Models.Display | src/model.rs:88-135 | Every name starts with "QL-", so the "UNKNOWN" arm is never taken. |
| Models.DisplayInjective | src/model.rs:88-135 | Distinct models have distinct display names. |
| Models.FromStrDisplay | src/model.rs:26-38 | Parsing the display name of a supported model gives that model back. |
| Models.DisplayFromStr | src/model.rs:88-135 | Displaying a parsed model gives back the name that was parsed. |
| Utils.PackPixelsBit | src/utils.rs:45-50 | In a packed byte, bit `i` is set exactly when pixel `i` is at or below the threshold. |
| Utils.PackByte | src/utils.rs:45-50 | The inner loop `tmp \|= value << i` computes the packed byte of the eight pixels. |
| Utils.FilterRow | src/utils.rs:43-52 | The middle loop produces row `y` of the reference filter. |
| Utils.StepFilter | src/utils.rs:38-57 | The result is the reference filter: `length` rows of `width / 8` bytes. |
| Utils.Filtered | src/utils.rs:38-57 | The reference filter has exactly `length` rows of `width / 8` bytes each. |
| Utils.FilteredBit | src/utils.rs:44-50 | Bit `i` of byte `x` of row `y` is set exactly when source byte `(y+1)*width - (x+1)*8 + i` is at or below the threshold, and that index is inside the buffer. |
| Utils.SourceIndexInRow | src/utils.rs:44-47 | Every index read for row `y` lies in `[y*width, (y+1)*width)`. |
| Utils.FilteredMirrored | src/utils.rs:44 | Byte `x` packs the columns `width - 8(x+1)` up to `width - 8x` of its row, so byte 0 holds the last eight pixels. |
| Utils.FilteredMonotone | src/utils.rs:48 | Raising the threshold never clears a set bit. |
| Utils.StepFilterNormal | src/utils.rs:30-32 | With the 720-pin width, each of the `length` rows has 90 bytes. |
| Utils.StepFilterWide | src/utils.rs:34-36 | With the 1296-pin width, each of the `length` rows has 162 bytes. |
| Utils.StripedImageFiltered | src/utils.rs:61-77 | With threshold 127, the 16x16 image alternating 255 and 0 by column filters to 16 rows of `[170, 170]`. |
| PrinterProfile.StatusTypeFromCode | src/printer/printer_profile.rs:313-325 | The result is Unknown exactly for 0x03 and codes above 0x06; otherwise it is the variant whose code is the input. |
| PrinterProfile.StatusTypeRoundTrip | src/printer/printer_profile.rs:313-325 | Every named status type is decoded from its own code. |
| PrinterProfile.PhaseFromBuf | src/printer/printer_profile.rs:336-344 | Receiving exactly for byte 19 = 0x00, Printing exactly for 0x01, and otherwise Waiting with a count of 0. |
| PrinterProfile.NotificationFromCode | src/printer/printer_profile.rs:354-362 | CoolingStarted exactly for 0x03, CoolingFinished exactly for 0x04, NotAvailable otherwise. |
| PrinterProfile.StatusFromBuf | src/printer/printer_profile.rs:275-286 | Requires a known model code at byte 4. Model from byte 4, id from 14, mode from 15, status type from 18, phase from 19, notification from 22; media and error come from their decoders. |
| PrinterProfile.StatusFromBufReadsFields | src/printer/printer_profile.rs:275-286 | Apart from media and error, the status depends only on bytes 4, 14, 15, 18, 19 and 22. |
| PrinterProfile.CheckMedia | src/printer/printer_profile.rs:288-298 | Ok exactly when the status names the expected media. Otherwise it fails with `InvalidMedia` carrying the expected media. |
| PrinterProfile.Write | src/printer/printer_profile.rs:190-218 | Ok with the count exactly when the whole buffer was transferred. A short count `n` is `InvalidResponse(n)`; a transport failure is `UsbError`. |
| PrinterProfile.ReadStatus | src/printer/printer_profile.rs:220-258 | The 10-attempt loop returns what the read specification returns for the device's replies. |
| PrinterProfile.ReadStatusOk | src/printer/printer_profile.rs:227-246 | A successful read decodes the first 32-byte reply in the Receiving phase among the first ten; every earlier read was retried. |
| PrinterProfile.ReadStatusFailure | src/printer/printer_profile.rs:227-253 | A failed read is a USB error or a timeout. A USB error is the failure of the first read that was not retried. |
| PrinterProfile.ReadStatusTimeoutIff | src/printer/printer_profile.rs:227-253 | The read times out exactly when all ten replies are retried (short, or not in the Receiving phase). |
| PrinterProfile.ReadStatusReadsAtMostTen | src/printer/printer_profile.rs:227-253 | Replies after the tenth read never affect the result. |
| PrinterProfile.OpenDevice | src/printer/printer_profile.rs:103-157 | A found device has vendor 0x04F9, the model's product id, opens, and carries exactly the requested serial; every earlier device was passed over. `DeviceOffline` exactly when no device matches; a language-read failure of a candidate is returned as `UsbError`. |
| PrinterProfile.ConnectUsb | src/printer/printer_profile.rs:31-91 | A failing USB context is `UsbError`. Every failure of the device search becomes `DeviceOffline`. A success is a matching device with all earlier devices passed over. When a matching device follows only passed-over devices, it is the one returned. |
| Printer.StatusFromBuf | src/printer.rs:383-393 | The printer's decoder reads the same bytes with the same tables, without the id. |
| Printer.StatusDecodersAgree | src/printer.rs:383-459 | The printer's decoder equals the profile's decoder with the id dropped. |
| Printer.OpenDevice | src/printer.rs:95-140 | The same first-match search as the profile's. A failed enumeration gives no device. Having no device means every device was passed over, or a candidate's language read failed. |
| Printer.Connect | src/printer.rs:39-93 | A failing USB context is `UsbError`; no device found is `DeviceOffline`; a success is a matching device with all earlier devices passed over. When a matching device follows only passed-over devices, it is the one returned. |
| Printer.ReadStatus | src/printer.rs:191-216 | The countdown loop returns what the countdown specification returns. |
| Printer.ReadStatusOk | src/printer.rs:191-216 | A successful read decodes the first 32-byte reply, whatever its phase; every earlier read was short. |
| Printer.ReadStatusFailure | src/printer.rs:191-216 | A failed countdown read is a USB error or a timeout. A USB error is the failure of the first read that was not short; every earlier read was short. |
| Printer.ReadStatusTimeoutIff | src/printer.rs:191-216 | The read times out exactly when ten reads in a row are short. |
| Printer.ReadStatusVersionsAgree | src/printer.rs:191-216 | When the countdown read fails, the profile's read fails with the same error. When it returns a reply in the Receiving phase, the profile's read returns that reply too. |
| Printer.NewConfig | src/printer.rs:484-491 | Auto-cut Enabled(1), one colour, cut at end, normal resolution. |
| Printer.EnableAutoCut | src/printer.rs:493-498 | Sets auto-cut to Enabled(size) and changes no other field. |
| Printer.DisableAutoCut | src/printer.rs:500-505 | Sets auto-cut to Disabled and changes no other field. |
| Printer.ChangeResolution | src/printer.rs:507-512 | Sets the resolution flag and changes no other field. |
| Printer.AutoCutCount | src/printer.rs:516-524 | The count is `n` for Enabled(n) and 1 for Disabled. |
| Printer.VariousMode | src/printer.rs:516-524 | Bit 0x40 is set exactly when auto-cut is enabled, and no other bit is set. |
| Printer.ExpandedMode | src/printer.rs:527-541 | Bits 0x01, 0x08 and 0x40 are set exactly for two colours, cut at end and high resolution; no other bit is set. |
| Printer.Build | src/printer.rs:514-542 | Appends exactly the 12-byte configuration block and keeps the earlier buffer unchanged. |
| Printer.ConfigBlockDecodes | src/printer.rs:514-542 | The block is `1B 69 41 n`, `1B 69 4D m`, `1B 69 4B e` in that order, and each setting can be read back from its byte. |
| Printer.DefaultConfigBlock | src/printer.rs:484-542 | The default configuration builds `1B 69 41 01 1B 69 4D 40 1B 69 4B 08`. |
| Printer.Zeros | src/printer.rs:228 | A run of `n` zero bytes. |
| Printer.Initialize | src/printer.rs:227-231 | Two writes: 400 zero bytes, then `ESC @`. |
| Printer.RequestStatus | src/printer.rs:262-268 | One 405-byte write: the initialize preamble followed by `ESC i S`. |
| Printer.NotificationMode | src/printer.rs:306-313 | `ESC i !` followed by 0x00 exactly when notifying and 0x01 exactly when not. |
| Printer.SetMargin | src/printer.rs:278-280 | `ESC i d` followed by `n1` and `n2` as given. |
| Printer.MarginWithDots | src/printer.rs:286-290 | `ESC i d n1 n2` with `n1 + 256 * n2` equal to the dot count, low byte first. |
| Printer.MarginWithDotsInjective | src/printer.rs:286-290 | Distinct dot counts give distinct margin commands. |
| Printer.MarginWithDotsSurjective | src/printer.rs:278-290 | Every `set_margin` command is the margin command for the dot count it carries. |
| Printer.BigEndian16 | src/printer.rs:287 | A 16-bit value becomes two bytes, high byte first, that put back together give the value. |
| Printer.PrintCommandAsWrittenIsNotFormFeed | src/printer.rs:344-347 | As written, `print` sends 0xFF (255), not the form-feed byte 0x0C (12). |
| Printer.PrintCommand | src/printer.rs:344-347 | The corrected print command is the single form-feed byte, distinct from the print-last command. |
| Printer.TransferRaster | src/printer.rs:318-322 | Two writes: the header `67 00 5A`, then the row unchanged. |
| Printer.TransferRasterColor | src/printer.rs:327-330 | One three-byte write starting `77 01`; the buffer itself is not sent. |
| Printer.TransferRasterColorWraps | src/printer.rs:327-330 | The length byte depends only on the buffer length modulo 256. |
| Printer.SendOk | src/printer.rs:227-355 | A command of several writes succeeds exactly when every buffer was transferred in full. |
| Printer.SendErr | src/printer.rs:227-355 | A failed command reports the error of its first failing write; every earlier write went through in full. |
| Printer.LittleEndian32RoundTrip | src/printer.rs:243-244 | The row-count bytes decode back to the 32-bit row count. |
| Printer.Preamble | src/printer.rs:235-236 | The frame opens with 402 bytes: 400 zero bytes and `ESC @`. |
| Printer.PageSetup | src/printer.rs:237-245 | Raster mode, notification on, print information, the row count and the page marker take 21 bytes. |
| Printer.PageOptions | src/printer.rs:248-252 | The configuration block, the margin command and `4D 00` take 19 bytes. |
| Printer.LabelHeader | src/printer.rs:234-252 | The frame's header before the raster lines is 442 bytes. |
| Printer.LabelHeaderLayout | src/printer.rs:234-252 | The position of each header part: 400 zeros; `1B 40`; `1B 69 61 01`; `1B 69 21 00`; `1B 69 7A 86 0A 3E 00`; the row count little-endian; `00 00`; the config block; `1B 69 64 23 00`; `4D 00`. |
| Printer.RasterLinesLength | src/printer.rs:253-257 | The raster lines take three header bytes plus the row's length, per row. |
| Printer.RasterLinesRow | src/printer.rs:253-257 | Row `k` appears after the rows before it, behind `67 00 5A`, whatever its length. |
| Printer.LabelFrameLength | src/printer.rs:233-259 | The frame is 442 + the sum of (3 + row length) + 1 bytes long. |
| Printer.LabelFrameLayout | src/printer.rs:233-259 | The frame is the header, then the raster lines, then the final `1A`. |
| Printer.LabelFrameRow | src/printer.rs:253-257 | Row `k` sits in the frame at offset 442 plus the bytes of the earlier rows, behind `67 00 5A`. |
| Printer.LabelFrameStartsLikeRequestStatus | src/printer.rs:233-268 | The label frame and the status request begin with the same 402-byte preamble. |
| Printer.PrintLabel | src/printer.rs:233-259 | The appended buffer is exactly the label frame, and the write result is that of the frame. On success the count is 443 plus the raster bytes. |

## Left out

- USB session setup is not modelled: the device reset, kernel-driver detach, configuration and interface claim in `Printer::new` and `build_usb_profile`. These are host-side library calls. `Connect` and `ConnectUsb` stop once the device has been found.
- Endpoint discovery (`find_endpoint`) is not modelled. It walks USB descriptor objects from a library that is not part of this model.
- Timeouts and the sleep between status reads are not modelled. Every read, write and probe is an abstract outcome, and only the retry counting is kept.
- Network and Serial connections are not modelled; their code is `unimplemented!()`.
- `set_autocut` is not modelled: it takes its buffer by value, so its append is discarded.
- `print_information` is not modelled: it does nothing.
- `grayscale_to_matrix` is not modelled: it uses the image crate's resizing and dithering.
- Logging output (`debug!`, `println!`) is not modelled.
- The Media and PrinterError decoders, media geometry, PackBits and multi-page printing are defined in files this model does not include. The two decoders are parameters; the rest is absent.
- `Printer::write` makes the same decision as the profile's `write`, with a different timeout, so `PrinterProfile.Write` stands for both.
- The commands that make one write, or two with `?`, are modelled by their payload and by `Send`:
  - `set_margin_with_dots`, `set_raster_mode`, `set_nottification_mode`, `zero_raster`, `print`, `print_last`, `initialize`, `transfer_raster` and `transfer_raster_color` return `Ok(())` after all their writes, as `Send` does.
  - `set_margin` and `request_status` return the count of their single write. Their result is `PrinterProfile.Write` of their payload (`SetMargin`, `RequestStatus`).
  - `RasterMode`, `ZeroRaster` and `PrintLast` are the constant payloads.
- Printer.TransferRasterColor: the third byte is not proved equal, as an integer, to the buffer length modulo 256. Only its dependence on the length modulo 256 is proved (`TransferRasterColorWraps`), because the integer-to-byte conversion is too costly for the verifier.
- Utils.StepFilter: `width`, `length` and the source indices are unbounded integers. The model does not capture the Rust `u32` arithmetic overflowing for very large images, or the panic on a buffer shorter than `length * width`. Instead, the buffer is required to be long enough.
- Models.FromCode, PrinterProfile.StatusFromBuf, Printer.StatusFromBuf, PrinterProfile.ReadStatus and Printer.ReadStatus: the panic on an unknown model code is a precondition, not a modelled outcome.

## Findings

| source | as written | input that shows it | evidently intended | confidence | as-written member | corrected member |
|---|---|---|---|---|---|---|
| src/printer.rs:344-347 | `print` writes the single byte 0xFF | any call of `print()` | the print command used at the end of every page but the last is the form-feed byte 0x0C ("FF" in Brother's raster command reference) | medium, not executed | Printer.PrintCommandAsWrittenIsNotFormFeed | Printer.PrintCommand |
