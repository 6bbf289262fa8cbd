/** The ESP-IDF status codes (`esp_err_t`) the firmware functions in this model return. */
module Esp {
  datatype EspErr = EspOk | EspFail | EspErrInvalidCrc
}
